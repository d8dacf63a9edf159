/**
  `getClientIp`, written out identically in the password route and in the
  ban-check route: the first comma-separated entry of `x-forwarded-for`,
  trimmed; failing that `x-real-ip`; failing that `'unknown'`.

  `Headers.get` yields `null` for an absent header, modelled as `None`. A
  header counts only when it is truthy, that is present and non-empty.
*/
module ClientIp {
  import opened Common

  /** The characters `String.prototype.trim` removes: ECMAScript's
      WhiteSpace and LineTerminator code points. */
  predicate IsJsSpace(c: char) {
    || c == '\t' || c == '\n' || c == '\U{000B}' || c == '\U{000C}' || c == '\r' || c == ' '
    || c == '\U{00A0}' || c == '\U{1680}' || ('\U{2000}' <= c <= '\U{200A}')
    || c == '\U{2028}' || c == '\U{2029}' || c == '\U{202F}' || c == '\U{205F}'
    || c == '\U{3000}' || c == '\U{FEFF}'
  }

  /** The index of the first character at or after `i` that is not white space. */
  function SkipSpaces(s: string, i: nat): (j: nat)
    requires i <= |s|
    ensures i <= j <= |s|
    ensures forall k :: i <= k < j ==> IsJsSpace(s[k])
    ensures j < |s| ==> !IsJsSpace(s[j])
    decreases |s| - i
  {
    if i < |s| && IsJsSpace(s[i]) then SkipSpaces(s, i + 1) else i
  }

  /** The start of the white space that ends at `j`, not going below `lo`. */
  function SkipSpacesBack(s: string, lo: nat, j: nat): (i: nat)
    requires lo <= j <= |s|
    ensures lo <= i <= j
    ensures forall k :: i <= k < j ==> IsJsSpace(s[k])
    ensures lo < i ==> !IsJsSpace(s[i - 1])
    decreases j - lo
  {
    if lo < j && IsJsSpace(s[j - 1]) then SkipSpacesBack(s, lo, j - 1) else j
  }

  /** `String.prototype.trim`: white space is removed from the start, then
      from the end of what is left. */
  function Trim(s: string): (r: string)
    ensures |r| <= |s|
    ensures r == [] || (!IsJsSpace(r[0]) && !IsJsSpace(r[|r| - 1]))
  {
    var i := SkipSpaces(s, 0);
    s[i..SkipSpacesBack(s, i, |s|)]
  }

  /** `s.split(',')[0]`: everything before the first comma. */
  function FirstSegment(s: string): (r: string)
    ensures |r| <= |s| && r == s[..|r|]
    ensures forall k :: 0 <= k < |r| ==> r[k] != ','
    ensures |r| < |s| ==> s[|r|] == ','
  {
    if s == [] || s[0] == ',' then [] else [s[0]] + FirstSegment(s[1..])
  }

  const Unknown: string := "unknown"

  /** `getClientIp`, from the two header values. */
  function GetClientIp(forwarded: Option<string>, realIp: Option<string>): string {
    if forwarded.Some? && forwarded.value != "" then Trim(FirstSegment(forwarded.value))
    else if realIp.Some? && realIp.value != "" then realIp.value
    else Unknown
  }

  // ---------------------------------------------------------------------
  // Properties
  // ---------------------------------------------------------------------

  /** `s[i..j]` is `s` with its leading and trailing white space removed:
      only white space lies outside it, and it neither starts nor ends with
      white space. */
  predicate TrimmedAt(s: string, i: nat, j: nat) {
    && i <= j <= |s|
    && (forall k :: 0 <= k < i ==> IsJsSpace(s[k]))
    && (forall k :: j <= k < |s| ==> IsJsSpace(s[k]))
    && (i < j ==> !IsJsSpace(s[i]) && !IsJsSpace(s[j - 1]))
  }

  /** `Trim` is the trimmed slice: it is one, ... */
  lemma TrimIsTrimmedSlice(s: string)
    ensures var i := SkipSpaces(s, 0);
            TrimmedAt(s, i, SkipSpacesBack(s, i, |s|)) && Trim(s) == s[i..SkipSpacesBack(s, i, |s|)]
  {
  }

  /** ... and any trimmed slice is `Trim`. */
  lemma TrimmedSliceIsTrim(s: string, i: nat, j: nat)
    requires TrimmedAt(s, i, j)
    ensures Trim(s) == s[i..j]
  {
    var a := SkipSpaces(s, 0);
    var b := SkipSpacesBack(s, a, |s|);
    if i < j {
      assert a == i;
      assert b == j;
    } else {
      assert a == |s|;
    }
  }

  /** From `x-forwarded-for` the address is its first entry (everything
      before the first comma, `forwarded[..c]`) trimmed. */
  lemma ForwardedAddress(forwarded: string, realIp: Option<string>, c: nat, i: nat, j: nat)
    requires forwarded != ""
    requires c <= |forwarded| && (c == |forwarded| || forwarded[c] == ',')
    requires forall k :: 0 <= k < c ==> forwarded[k] != ','
    requires TrimmedAt(forwarded[..c], i, j)
    ensures GetClientIp(Some(forwarded), realIp) == forwarded[i..j]
  {
    var seg := FirstSegment(forwarded);
    assert |seg| == c;
    TrimmedSliceIsTrim(seg, i, j);
  }

  /** The address taken from `x-forwarded-for` holds no comma and neither
      starts nor ends with white space. */
  lemma ForwardedAddressShape(forwarded: string, realIp: Option<string>)
    requires forwarded != ""
    ensures var r := GetClientIp(Some(forwarded), realIp);
            && (forall k :: 0 <= k < |r| ==> r[k] != ',')
            && (r == [] || (!IsJsSpace(r[0]) && !IsJsSpace(r[|r| - 1])))
  {
    var seg := FirstSegment(forwarded);
    var r := Trim(seg);
    var i := SkipSpaces(seg, 0);
    TrimIsTrimmedSlice(seg);
    forall k | 0 <= k < |r|
      ensures r[k] != ','
    {
      assert r[k] == seg[i + k];
    }
  }

  /** A non-empty `x-forwarded-for` always wins over `x-real-ip`. */
  lemma ForwardedTakesPrecedence(forwarded: string, realIp: Option<string>, realIp': Option<string>)
    requires forwarded != ""
    ensures GetClientIp(Some(forwarded), realIp) == GetClientIp(Some(forwarded), realIp')
  {
  }

  /** Without a usable `x-forwarded-for`, a non-empty `x-real-ip` is taken
      as it is, untrimmed, and `'unknown'` stands in for both missing. */
  lemma RealIpFallback(forwarded: Option<string>, realIp: Option<string>)
    requires forwarded.None? || forwarded.value == ""
    ensures realIp.Some? && realIp.value != "" ==> GetClientIp(forwarded, realIp) == realIp.value
    ensures realIp.None? || realIp.value == "" ==> GetClientIp(forwarded, realIp) == "unknown"
  {
  }

  /** "a, b, c" gives "a", for any address `a` without commas or white space. */
  lemma ExampleFirstOfList(a: string)
    requires a != []
    requires forall k :: 0 <= k < |a| ==> a[k] != ',' && !IsJsSpace(a[k])
    ensures GetClientIp(Some(a + ", b, c"), None) == a
  {
    var f := a + ", b, c";
    FirstSegmentPrefix(a, ", b, c");
    assert FirstSegment(f) == a;
    TrimUnchanged(a);
  }

  /** The first entry of `a + rest`, where `a` has no comma and `rest` starts with one. */
  lemma {:induction false} FirstSegmentPrefix(a: string, rest: string)
    requires forall k :: 0 <= k < |a| ==> a[k] != ','
    requires rest != [] && rest[0] == ','
    ensures FirstSegment(a + rest) == a
  {
    if a != [] {
      assert (a + rest)[1..] == a[1..] + rest;
      FirstSegmentPrefix(a[1..], rest);
    } else {
      assert a + rest == rest;
    }
  }

  /** Trimming a string that neither starts nor ends with white space changes nothing. */
  lemma TrimUnchanged(a: string)
    requires a == [] || (!IsJsSpace(a[0]) && !IsJsSpace(a[|a| - 1]))
    ensures Trim(a) == a
  {
  }
}
