/**
 * The map marker helpers: HP bands for the image filter, the HP colour and the
 * animation class, the icon size, the image URL with size parameters, the HP
 * bar style and the fallback emoji. HP percentages are exact reals.
 */
module BossImage {
  import opened Wrappers

  // ------------------------------------------------------------ filter

  /** The five looks of the boss image, from healthy to defeated. */
  datatype Look = Healthy | Scratched | Wounded | Critical | Defeated

  function Severity(l: Look): nat {
    match l
    case Healthy => 0
    case Scratched => 1
    case Wounded => 2
    case Critical => 3
    case Defeated => 4
  }

  /** The band of `getBossImageFilter`: above 75, above 50, above 25, above 0, and the rest. */
  function LookFor(hp: real): (l: Look)
    ensures l == Healthy <==> hp > 75.0
    ensures l == Scratched <==> 50.0 < hp <= 75.0
    ensures l == Wounded <==> 25.0 < hp <= 50.0
    ensures l == Critical <==> 0.0 < hp <= 25.0
    ensures l == Defeated <==> hp <= 0.0
  {
    if hp > 75.0 then Healthy
    else if hp > 50.0 then Scratched
    else if hp > 25.0 then Wounded
    else if hp > 0.0 then Critical
    else Defeated
  }

  function FilterCss(l: Look): string {
    match l
    case Healthy => "brightness(1.0) saturate(1.2)"
    case Scratched => "brightness(0.9) saturate(1.0)"
    case Wounded => "brightness(0.7) saturate(0.8) hue-rotate(30deg)"
    case Critical => "brightness(0.5) saturate(0.6) hue-rotate(60deg)"
    case Defeated => "brightness(0.3) saturate(0.3) grayscale(0.5)"
  }

  /** `getBossImageFilter`. */
  function ImageFilter(hp: real): (css: string)
    ensures css == "brightness(1.0) saturate(1.2)" <==> hp > 75.0
    ensures css == "brightness(0.9) saturate(1.0)" <==> 50.0 < hp <= 75.0
    ensures css == "brightness(0.7) saturate(0.8) hue-rotate(30deg)" <==> 25.0 < hp <= 50.0
    ensures css == "brightness(0.5) saturate(0.6) hue-rotate(60deg)" <==> 0.0 < hp <= 25.0
    ensures css == "brightness(0.3) saturate(0.3) grayscale(0.5)" <==> hp <= 0.0
  {
    FilterCss(LookFor(hp))
  }

  /** Less HP never looks healthier, and the five bands have five different filters. */
  lemma LookMonotone(h1: real, h2: real)
    requires h1 <= h2
    ensures Severity(LookFor(h1)) >= Severity(LookFor(h2))
  {
  }

  lemma FilterCssDistinct(a: Look, b: Look)
    ensures a != b ==> FilterCss(a) != FilterCss(b)
  {
  }

  // ------------------------------------------------------------ colour

  datatype HpColour = Green | Orange | Red

  function ColourCode(c: HpColour): string {
    match c
    case Green => "#00ff41"
    case Orange => "#ffae00"
    case Red => "#ff0040"
  }

  /** `getHpColor` as a band: green above 60, orange above 30, red otherwise. */
  function ColourFor(hp: real): (c: HpColour)
    ensures c == Green <==> hp > 60.0
    ensures c == Orange <==> 30.0 < hp <= 60.0
    ensures c == Red <==> hp <= 30.0
  {
    if hp > 60.0 then Green else if hp > 30.0 then Orange else Red
  }

  function HpColor(hp: real): string {
    ColourCode(ColourFor(hp))
  }

  function Danger(c: HpColour): nat {
    match c
    case Green => 0
    case Orange => 1
    case Red => 2
  }

  /** Less HP never shows a safer colour. */
  lemma ColourMonotone(h1: real, h2: real)
    requires h1 <= h2
    ensures Danger(ColourFor(h1)) >= Danger(ColourFor(h2))
  {
  }

  // ------------------------------------------------------------ icon size

  /** The `baseSizes` table; any other screen name has no entry and the lookup throws. */
  function BaseSize(screenSize: string, isActive: bool): (r: Option<nat>)
    ensures r.Some? <==> screenSize in {"mobile", "tablet", "desktop"}
    ensures r.Some? ==> 25 <= r.value <= 50
    ensures screenSize == "mobile" ==> r == Some(if isActive then 35 else 25)
    ensures screenSize == "tablet" ==> r == Some(if isActive then 45 else 30)
    ensures screenSize == "desktop" ==> r == Some(if isActive then 50 else 35)
  {
    if screenSize == "mobile" then Some(if isActive then 35 else 25)
    else if screenSize == "tablet" then Some(if isActive then 45 else 30)
    else if screenSize == "desktop" then Some(if isActive then 50 else 35)
    else None
  }

  /** The size for a base: 90% below 25 HP, 95% below 50, full size otherwise, rounded down. */
  function ScaledSize(base: nat, hp: real): (size: nat)
    ensures size <= base
    ensures hp >= 50.0 ==> size == base
    ensures hp < 25.0 ==> size as real <= base as real * 0.9 < size as real + 1.0
    ensures 25.0 <= hp < 50.0 ==> size as real <= base as real * 0.95 < size as real + 1.0
  {
    if hp < 25.0 then (base as real * 0.9).Floor
    else if hp < 50.0 then (base as real * 0.95).Floor
    else base
  }

  /** `getBossIconSize`; `None` when the screen size is not in the table. */
  function IconSize(hp: real, isActive: bool, screenSize: string): (size: Option<nat>)
    ensures size.Some? <==> BaseSize(screenSize, isActive).Some?
    ensures size.Some? ==> size.value <= BaseSize(screenSize, isActive).value
    ensures size.Some? ==> size.value == ScaledSize(BaseSize(screenSize, isActive).value, hp)
  {
    match BaseSize(screenSize, isActive)
    case None => None
    case Some(base) => Some(ScaledSize(base, hp))
  }

  /** More HP never gives a smaller icon. */
  lemma ScaledSizeMonotone(base: nat, h1: real, h2: real)
    requires h1 <= h2
    ensures ScaledSize(base, h1) <= ScaledSize(base, h2)
  {
    var a := (base as real * 0.9).Floor;
    var b := (base as real * 0.95).Floor;
    assert a <= b by {
      assert base as real * 0.9 <= base as real * 0.95;
      assert a as real <= base as real * 0.95;
    }
  }

  lemma IconSizeExamples()
    ensures IconSize(10.0, true, "desktop") == Some(45)
    ensures IconSize(30.0, true, "mobile") == Some(33)
    ensures IconSize(80.0, false, "tablet") == Some(30)
    ensures IconSize(80.0, false, "watch") == None
  {
  }

  // ------------------------------------------------------------ image URL

  /** The `sizeParams` table; a missing entry is interpolated as the text "undefined". */
  function SizeParams(size: string): string {
    if size == "small" then "w=32&h=32&fit=crop&q=80"
    else if size == "medium" then "w=48&h=48&fit=crop&q=85"
    else if size == "large" then "w=64&h=64&fit=crop&q=90"
    else "undefined"
  }

  /** `getOptimizedBossImageUrl`: a missing or empty URL gives null; otherwise the parameters are appended. */
  function OptimizedImageUrl(url: Option<string>, size: string): (r: Option<string>)
    ensures r.None? <==> url.None? || url.value == ""
    ensures r.Some? ==> |r.value| > |url.value| && r.value[..|url.value|] == url.value
    ensures r.Some? ==> r.value[|url.value|] == (if '?' in url.value then '&' else '?')
    ensures r.Some? ==> r.value[|url.value| + 1..] == SizeParams(size)
  {
    match url
    case None => None
    case Some(u) =>
      if u == "" then None
      else Some(u + [if '?' in u then '&' else '?'] + SizeParams(size))
  }

  /** The result always carries a query string, so optimising it again appends with '&'. */
  lemma OptimizedUrlHasQuery(url: string, size: string, again: string)
    requires url != ""
    ensures '?' in OptimizedImageUrl(Some(url), size).value
    ensures OptimizedImageUrl(OptimizedImageUrl(Some(url), size), again).value
         == OptimizedImageUrl(Some(url), size).value + "&" + SizeParams(again)
  {
    var r := OptimizedImageUrl(Some(url), size).value;
    if '?' in url {
      var i :| 0 <= i < |url| && url[i] == '?';
      assert r[i] == '?';
    } else {
      assert r[|url|] == '?';
    }
  }

  // ------------------------------------------------------------ animation

  /** `getBossAnimationClass`: status first (completed, then paused), then HP below 25 and below 50. */
  function AnimationClass(status: string, hp: real): (cls: string)
    ensures status == "completed" ==> cls == "boss-defeated"
    ensures status != "completed" && status == "paused" ==> cls == "boss-paused"
    ensures status != "completed" && status != "paused" ==>
      cls == (if hp < 25.0 then "boss-critical" else if hp < 50.0 then "boss-wounded" else "boss-healthy")
  {
    if status == "completed" then "boss-defeated"
    else if status == "paused" then "boss-paused"
    else if hp < 25.0 then "boss-critical"
    else if hp < 50.0 then "boss-wounded"
    else "boss-healthy"
  }

  /** A completed raid looks defeated whatever its HP, and an active one's class depends only on its HP band. */
  lemma AnimationIgnoresHpWhenCompleted(h1: real, h2: real)
    ensures AnimationClass("completed", h1) == AnimationClass("completed", h2)
  {
  }

  lemma AnimationSameBand(status: string, h1: real, h2: real)
    requires (h1 < 25.0 <==> h2 < 25.0) && (h1 < 50.0 <==> h2 < 50.0)
    ensures AnimationClass(status, h1) == AnimationClass(status, h2)
  {
  }

  // ------------------------------------------------------------ HP bar

  datatype BarStyle = BarStyle(transition: string, boxShadow: string, animation: Option<string>)

  /** `getHpBarAnimation`: a transition and a glow in the HP colour, plus a blink below 10% HP. */
  function HpBarAnimation(hp: real): (st: BarStyle)
    ensures st.animation.Some? <==> hp < 10.0
    ensures st.transition == "all 0.3s ease"
    ensures st.boxShadow == "0 0 8px " + HpColor(hp)
  {
    var base := BarStyle("all 0.3s ease", "0 0 8px " + HpColor(hp), None);
    if hp < 10.0 then base.(animation := Some("criticalBlink 1s ease-in-out infinite")) else base
  }

  /** A blinking bar is always red. */
  lemma BlinkingBarIsRed(hp: real)
    requires HpBarAnimation(hp).animation.Some?
    ensures HpBarAnimation(hp).boxShadow == "0 0 8px " + ColourCode(Red)
  {
  }

  // ------------------------------------------------------------ emoji

  /** `getFallbackEmoji`: one emoji per boss element, crossed swords for anything else. */
  function FallbackEmoji(bossType: string): (e: string)
    ensures bossType == "fire" ==> e == "🔥"
    ensures bossType == "water" ==> e == "💧"
    ensures bossType == "earth" ==> e == "🌍"
    ensures bossType == "wind" ==> e == "💨"
    ensures bossType !in {"fire", "water", "earth", "wind"} ==> e == "⚔️"
  {
    if bossType == "fire" then "🔥"
    else if bossType == "water" then "💧"
    else if bossType == "earth" then "🌍"
    else if bossType == "wind" then "💨"
    else "⚔️"
  }

  /** The four elements get four different emojis, none of them the default. */
  lemma FallbackEmojiDistinct(a: string, b: string)
    requires a in {"fire", "water", "earth", "wind"} && b in {"fire", "water", "earth", "wind"}
    ensures a != b ==> FallbackEmoji(a) != FallbackEmoji(b)
    ensures FallbackEmoji(a) != "⚔️"
  {
  }
}
