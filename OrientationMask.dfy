/** The `check` closure of `handleOrientationMask` (js/level3.js:121-132): on a
    phone or tablet held upright the "rotate your device" mask is shown,
    otherwise it is hidden. The user-agent string and the result of the
    `(orientation: portrait)` media query are inputs. */
module OrientationMask {
  import opened Ascii

  /** The alternatives of `/Android|iPhone|iPad|iPod/i`, in order. */
  const Devices: seq<string> := ["Android", "iPhone", "iPad", "iPod"]

  /** w occurs at index i of ua, up to ASCII case. */
  predicate OccursAt(ua: string, w: string, i: nat) {
    i + |w| <= |ua| && EqualIgnoringCase(ua[i..i + |w|], w)
  }

  /** ua contains w, up to ASCII case. */
  ghost predicate ContainsIgnoringCase(ua: string, w: string) {
    exists i: nat :: OccursAt(ua, w, i)
  }

  /** One of the alternatives matches at index i. */
  predicate DeviceAt(ua: string, i: nat) {
    OccursAt(ua, "Android", i) || OccursAt(ua, "iPhone", i) || OccursAt(ua, "iPad", i) || OccursAt(ua, "iPod", i)
  }

  /** `RegExp.prototype.test`: try the pattern at i, i+1, ... up to the end of ua. */
  function TestFrom(ua: string, i: nat): (r: bool)
    requires i <= |ua|
    ensures r <==> exists j: nat :: i <= j <= |ua| && DeviceAt(ua, j)
    decreases |ua| - i
  {
    if DeviceAt(ua, i) then true
    else if i == |ua| then false
    else TestFrom(ua, i + 1)
  }

  /** `/Android|iPhone|iPad|iPod/i.test(navigator.userAgent)`. */
  function IsMobileOrTablet(ua: string): (r: bool)
    ensures r <==> exists j: nat :: j <= |ua| && DeviceAt(ua, j)
  {
    TestFrom(ua, 0)
  }

  /** The test holds exactly when the user agent contains one of the four
      device names, whatever the case of its letters. */
  lemma {:induction false} MobileIffContainsDevice(ua: string)
    ensures IsMobileOrTablet(ua) <==> exists k :: 0 <= k < |Devices| && ContainsIgnoringCase(ua, Devices[k])
  {
    if IsMobileOrTablet(ua) {
      var j: nat :| j <= |ua| && DeviceAt(ua, j);
      var k := if OccursAt(ua, "Android", j) then 0
        else if OccursAt(ua, "iPhone", j) then 1
        else if OccursAt(ua, "iPad", j) then 2 else 3;
      assert OccursAt(ua, Devices[k], j);
    }
    if exists k :: 0 <= k < |Devices| && ContainsIgnoringCase(ua, Devices[k]) {
      var k :| 0 <= k < |Devices| && ContainsIgnoringCase(ua, Devices[k]);
      var j: nat :| OccursAt(ua, Devices[k], j);
      assert DeviceAt(ua, j);
    }
  }

  /** The value `check` gives `mask.style.display`. */
  function MaskDisplay(ua: string, portrait: bool): (r: string)
    ensures r == "block" || r == "none"
  {
    if IsMobileOrTablet(ua) && portrait then "block" else "none"
  }

  /** The mask is shown exactly on a portrait viewport whose user agent names a
      phone or tablet; a desktop browser, or a device held sideways, hides it. */
  lemma {:induction false} MaskShownIff(ua: string, portrait: bool)
    ensures MaskDisplay(ua, portrait) == "block" <==>
      portrait && exists k :: 0 <= k < |Devices| && ContainsIgnoringCase(ua, Devices[k])
  {
    MobileIffContainsDevice(ua);
  }

  /** The case of the user agent does not matter. */
  lemma {:induction false} UpperCaseIphoneIsMobile()
    ensures MaskDisplay("IPHONE", true) == "block"
  {
    assert DeviceAt("IPHONE", 0);
  }
}
