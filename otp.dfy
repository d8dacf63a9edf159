/**
  The one-time-code extractor of the Gmail relay (`extractOtpFromText`).

  The three regular expressions it tries, in this order, are
    /OTP[^0-9]*?(\d{4,8})/i
    /verification code[^0-9]*?(\d{4,8})/i
    /\b(\d{4,8})\b/
  and `text.match(regex)` returns the capture of the leftmost match. Each pattern
  is modelled by what the regular-expression engine captures when it tries a
  match at one start position (CaptureAt), and `match` by the search for the
  leftmost start position that succeeds (LeftmostMatch, Exec).
*/
module OtpExtract {
  import opened Common

  /** `\d` and `[0-9]`. */
  predicate IsDigit(c: char) {
    '0' <= c <= '9'
  }

  /** `\w` of a regular expression without the `u` flag: the characters `\b` looks at. */
  predicate IsWordChar(c: char) {
    'a' <= c <= 'z' || 'A' <= c <= 'Z' || IsDigit(c) || c == '_'
  }

  /** Lower-cases ASCII letters only. Under the `i` flag without `u`, a character
      matches an ASCII letter of the pattern exactly when this maps it to that
      letter's lower case (no non-ASCII character folds onto an ASCII one). */
  function ToLowerAscii(c: char): char {
    if 'A' <= c <= 'Z' then (c as int + 32) as char else c
  }

  predicate AllDigits(t: string) {
    forall k :: 0 <= k < |t| ==> IsDigit(t[k])
  }

  /** `t` occurs in `s` at index `k`. */
  predicate OccursAt(t: string, s: string, k: nat) {
    k + |t| <= |s| && s[k..k + |t|] == t
  }

  ghost predicate IsSubstring(t: string, s: string) {
    exists k :: OccursAt(t, s, k)
  }

  /** The characters `s[start..end]` of a capture group. */
  datatype Span = Span(start: nat, end: nat)

  /** A capture of `(\d{4,8})`: four to eight digits of `s`. */
  predicate IsCapture(s: string, sp: Span) {
    && sp.start + 4 <= sp.end <= sp.start + 8
    && sp.end <= |s|
    && forall k :: sp.start <= k < sp.end ==> IsDigit(s[k])
  }

  /** The shapes of the three patterns. */
  datatype Pattern =
    | Marker(word: string)  // `<word>[^0-9]*?(\d{4,8})` under the `i` flag; `word` in lower case
    | BoundedRun            // `\b(\d{4,8})\b`

  const OtpMarker: Pattern := Marker("otp")
  const CodeMarker: Pattern := Marker("verification code")

  /** `regexList`, in the order the loop tries it. */
  const Patterns: seq<Pattern> := [OtpMarker, CodeMarker, BoundedRun]

  /** The marker `w` (lower case) occurs at `i`, ignoring the case of ASCII letters. */
  predicate MarkerAt(s: string, i: nat, w: string) {
    i + |w| <= |s| && forall k :: 0 <= k < |w| ==> ToLowerAscii(s[i + k]) == w[k]
  }

  /** Length of the maximal run of digits that starts at `j`. */
  function DigitRun(s: string, j: nat): (n: nat)
    requires j <= |s|
    ensures j + n <= |s|
    ensures forall k :: j <= k < j + n ==> IsDigit(s[k])
    ensures j + n < |s| ==> !IsDigit(s[j + n])
    decreases |s| - j
  {
    if j < |s| && IsDigit(s[j]) then 1 + DigitRun(s, j + 1) else 0
  }

  /** Index of the first digit at or after `j`, or `|s|` when there is none. */
  function FirstDigitFrom(s: string, j: nat): (p: nat)
    requires j <= |s|
    ensures j <= p <= |s|
    ensures forall k :: j <= k < p ==> !IsDigit(s[k])
    ensures p < |s| ==> IsDigit(s[p])
    decreases |s| - j
  {
    if j == |s| || IsDigit(s[j]) then j else FirstDigitFrom(s, j + 1)
  }

  function Min(a: int, b: int): int {
    if a <= b then a else b
  }

  /** What pattern `p` captures when a match is tried starting at index `i`.
      For a marker, `[^0-9]*?` can only stop in front of the first digit after
      the marker; the greedy `\d{4,8}` then takes up to eight digits of that run.
      For `\b(\d{4,8})\b`, the closing `\b` forces the whole digit run. */
  function CaptureAt(s: string, p: Pattern, i: nat): (r: Option<Span>)
    requires i <= |s|
    ensures r.Some? ==> i <= r.value.start && IsCapture(s, r.value)
  {
    match p
    case Marker(w) =>
      if !MarkerAt(s, i, w) then None
      else
        var j := FirstDigitFrom(s, i + |w|);
        var n := DigitRun(s, j);
        if n < 4 then None else Some(Span(j, j + Min(n, 8)))
    case BoundedRun =>
      var n := DigitRun(s, i);
      if && (i == 0 || !IsWordChar(s[i - 1]))
         && 4 <= n <= 8
         && (i + n == |s| || !IsWordChar(s[i + n]))
      then Some(Span(i, i + n))
      else None
  }

  /** The leftmost start position at or after `from` where `p` matches. */
  function LeftmostMatch(s: string, p: Pattern, from: nat): (r: Option<nat>)
    requires from <= |s|
    ensures r.Some? ==> from <= r.value <= |s| && CaptureAt(s, p, r.value).Some?
    ensures forall k :: from <= k <= |s| && (r.None? || k < r.value) ==> CaptureAt(s, p, k).None?
    decreases |s| - from
  {
    if CaptureAt(s, p, from).Some? then Some(from)
    else if from == |s| then None
    else LeftmostMatch(s, p, from + 1)
  }

  /** `s.match(regex)?.[1]` as a span: the capture of the leftmost match. */
  function Exec(s: string, p: Pattern): (r: Option<Span>)
    ensures r.Some? ==> IsCapture(s, r.value)
    ensures r.Some? ==> exists i :: 0 <= i <= |s| && CaptureAt(s, p, i) == r &&
                           forall k :: 0 <= k < i ==> CaptureAt(s, p, k).None?
    ensures r.None? <==> forall i :: 0 <= i <= |s| ==> CaptureAt(s, p, i).None?
  {
    match LeftmostMatch(s, p, 0)
    case None => None
    case Some(i) => CaptureAt(s, p, i)
  }

  /** A capture is four to eight digits found in `s` at its start. */
  lemma CaptureOccurs(s: string, sp: Span)
    requires IsCapture(s, sp)
    ensures var c := s[sp.start..sp.end];
            4 <= |c| <= 8 && AllDigits(c) && OccursAt(c, s, sp.start) && IsSubstring(c, s)
  {
    assert OccursAt(s[sp.start..sp.end], s, sp.start);
  }

  /** The `for … of regexList` loop: the capture of the first pattern that matches. */
  function Cascade(s: string, ps: seq<Pattern>): (r: Option<string>)
    ensures r.Some? ==> 4 <= |r.value| <= 8 && AllDigits(r.value) && IsSubstring(r.value, s)
  {
    if ps == [] then None
    else
      match Exec(s, ps[0])
      case Some(sp) =>
        CaptureOccurs(s, sp);
        Some(s[sp.start..sp.end])
      case None => Cascade(s, ps[1..])
  }

  /** `extractOtpFromText`: `None` stands for `null`, `undefined` and no match. */
  function ExtractOtpFromText(text: Option<string>): (r: Option<string>)
    ensures text.None? || text == Some("") ==> r.None?
    ensures r.Some? ==> && text.Some?
                        && 4 <= |r.value| <= 8
                        && AllDigits(r.value)
                        && IsSubstring(r.value, text.value)
  {
    match text
    case None => None
    case Some(s) => if s == "" then None else Cascade(s, Patterns)
  }

  // ---------------------------------------------------------------------
  // Properties
  // ---------------------------------------------------------------------

  /** Some four consecutive characters of `s` are digits. */
  predicate FourDigitsAt(s: string, i: nat) {
    i + 4 <= |s| && forall k :: i <= k < i + 4 ==> IsDigit(s[k])
  }

  ghost predicate HasFourDigitRun(s: string) {
    exists i :: FourDigitsAt(s, i)
  }

  /** A code is only found in a text with four consecutive digits. */
  lemma OtpNeedsFourDigits(s: string)
    requires ExtractOtpFromText(Some(s)).Some?
    ensures HasFourDigitRun(s)
  {
    var c := ExtractOtpFromText(Some(s)).value;
    var k :| OccursAt(c, s, k);
    assert forall m :: k <= m < k + 4 ==> s[m] == c[m - k];
    assert FourDigitsAt(s, k);
  }

  /** The patterns are tried in a fixed order. First: a match of the "OTP"
      marker anywhere in the text wins, wherever a later pattern would match. */
  lemma OtpMarkerFirst(s: string, sp: Span)
    requires |s| > 0
    requires Exec(s, OtpMarker) == Some(sp)
    ensures ExtractOtpFromText(Some(s)) == Some(s[sp.start..sp.end])
  {
    assert Patterns == [OtpMarker] + [CodeMarker, BoundedRun];
    CascadeCons(s, OtpMarker, [CodeMarker, BoundedRun]);
  }

  /** Second: the "verification code" marker, only when "OTP" does not match. */
  lemma CodeMarkerSecond(s: string, sp: Span)
    requires |s| > 0
    requires Exec(s, OtpMarker) == None
    requires Exec(s, CodeMarker) == Some(sp)
    ensures ExtractOtpFromText(Some(s)) == Some(s[sp.start..sp.end])
  {
    assert Patterns == [OtpMarker] + [CodeMarker, BoundedRun];
    CascadeCons(s, OtpMarker, [CodeMarker, BoundedRun]);
    assert [CodeMarker, BoundedRun] == [CodeMarker] + [BoundedRun];
    CascadeCons(s, CodeMarker, [BoundedRun]);
  }

  /** Last: the bare digit run, only when neither marker matches; when it
      does not match either, there is no code. */
  lemma BoundedRunLast(s: string)
    requires |s| > 0
    requires Exec(s, OtpMarker) == None
    requires Exec(s, CodeMarker) == None
    ensures Exec(s, BoundedRun).None? ==> ExtractOtpFromText(Some(s)) == None
    ensures Exec(s, BoundedRun).Some? ==>
              var sp := Exec(s, BoundedRun).value;
              ExtractOtpFromText(Some(s)) == Some(s[sp.start..sp.end])
  {
    assert Patterns == [OtpMarker] + [CodeMarker, BoundedRun];
    CascadeCons(s, OtpMarker, [CodeMarker, BoundedRun]);
    assert [CodeMarker, BoundedRun] == [CodeMarker] + [BoundedRun];
    CascadeCons(s, CodeMarker, [BoundedRun]);
    assert [BoundedRun] == [BoundedRun] + [];
    CascadeCons(s, BoundedRun, []);
  }

  /** One turn of the loop over the patterns. */
  lemma CascadeCons(s: string, p: Pattern, ps: seq<Pattern>)
    ensures Cascade(s, [p] + ps) == match Exec(s, p)
                                    case Some(sp) => Some(s[sp.start..sp.end])
                                    case None => Cascade(s, ps)
  {
    assert ([p] + ps)[0] == p && ([p] + ps)[1..] == ps;
  }

  /** A run of digits from `j` to `e` lies within the maximal run at `j`. */
  lemma {:induction false} DigitRunCovers(s: string, j: nat, e: nat)
    requires j <= e <= |s|
    requires forall k :: j <= k < e ==> IsDigit(s[k])
    ensures j + DigitRun(s, j) >= e
    decreases e - j
  {
    if j < e {
      DigitRunCovers(s, j + 1, e);
    }
  }

  /** A run of digits from `j` that ends at `e` is the maximal run at `j`. */
  lemma DigitRunStops(s: string, j: nat, e: nat)
    requires j <= e <= |s|
    requires forall k :: j <= k < e ==> IsDigit(s[k])
    requires e == |s| || !IsDigit(s[e])
    ensures DigitRun(s, j) == e - j
  {
    DigitRunCovers(s, j, e);
  }

  /** The first digit at or after `j` is at `p` when `s[p]` is a digit and none comes before it. */
  lemma FirstDigitAt(s: string, j: nat, p: nat)
    requires j <= p < |s|
    requires IsDigit(s[p])
    requires forall k :: j <= k < p ==> !IsDigit(s[k])
    ensures FirstDigitFrom(s, j) == p
  {
  }

  /** The conditions under which a marker pattern captures `sp` at `i`. */
  predicate MarkerCaptures(s: string, w: string, i: nat, sp: Span) {
    && MarkerAt(s, i, w)
    && IsCapture(s, sp)
    && i + |w| <= sp.start
    && (forall k :: i + |w| <= k < sp.start ==> !IsDigit(s[k]))
    && (sp.end < sp.start + 8 ==> sp.end == |s| || !IsDigit(s[sp.end]))
  }

  lemma MarkerCaptureSound(s: string, w: string, i: nat, sp: Span)
    requires i <= |s|
    requires CaptureAt(s, Marker(w), i) == Some(sp)
    ensures MarkerCaptures(s, w, i, sp)
  {
  }

  lemma MarkerCaptureComplete(s: string, w: string, i: nat, sp: Span)
    requires i <= |s|
    requires MarkerCaptures(s, w, i, sp)
    ensures CaptureAt(s, Marker(w), i) == Some(sp)
  {
    FirstDigitAt(s, i + |w|, sp.start);
    DigitRunCovers(s, sp.start, sp.end);
    if sp.end < sp.start + 8 {
      DigitRunStops(s, sp.start, sp.end);
    }
    assert Min(DigitRun(s, sp.start), 8) == sp.end - sp.start;
    MarkerCaptureFromRun(s, w, i, sp);
  }

  /** The marker at `i` captures the first up-to-eight digits of the first
      run after it. */
  lemma MarkerCaptureFromRun(s: string, w: string, i: nat, sp: Span)
    requires i <= |s|
    requires MarkerAt(s, i, w)
    requires FirstDigitFrom(s, i + |w|) == sp.start
    requires Min(DigitRun(s, sp.start), 8) == sp.end - sp.start
    requires sp.end - sp.start >= 4
    ensures CaptureAt(s, Marker(w), i) == Some(sp)
  {
  }

  /** What a marker pattern captures, stated without the helper functions:
      the marker, then only non-digits, then four to eight digits, taken
      greedily (fewer than eight only when the digit run ends there). */
  lemma MarkerCaptureIff(s: string, w: string, i: nat, sp: Span)
    requires i <= |s|
    ensures CaptureAt(s, Marker(w), i) == Some(sp) <==> MarkerCaptures(s, w, i, sp)
  {
    if CaptureAt(s, Marker(w), i) == Some(sp) {
      MarkerCaptureSound(s, w, i, sp);
    }
    if MarkerCaptures(s, w, i, sp) {
      MarkerCaptureComplete(s, w, i, sp);
    }
  }

  /** What `\b(\d{4,8})\b` captures: a whole run of four to eight digits
      with no letter, digit or underscore on either side. */
  lemma BoundedRunCaptureIff(s: string, i: nat, sp: Span)
    requires i <= |s|
    ensures CaptureAt(s, BoundedRun, i) == Some(sp) <==>
              && sp.start == i
              && IsCapture(s, sp)
              && (i == 0 || !IsWordChar(s[i - 1]))
              && (sp.end == |s| || !IsWordChar(s[sp.end]))
  {
    if && sp.start == i && IsCapture(s, sp)
       && (i == 0 || !IsWordChar(s[i - 1]))
       && (sp.end == |s| || !IsWordChar(s[sp.end]))
    {
      var n := DigitRun(s, i);
      assert n == sp.end - sp.start;
    }
  }

  /** The fallback never returns part of a longer digit run: every run of
      digits around its capture is the capture itself, so a run of nine or
      more digits is never returned. */
  lemma BoundedRunIsWholeRun(s: string, sp: Span, a: nat, b: nat)
    requires Exec(s, BoundedRun) == Some(sp)
    requires a <= sp.start && sp.end <= b <= |s|
    requires forall k :: a <= k < b ==> IsDigit(s[k])
    ensures a == sp.start && b == sp.end && b - a <= 8
  {
    var i :| 0 <= i <= |s| && CaptureAt(s, BoundedRun, i) == Some(sp) &&
             forall k :: 0 <= k < i ==> CaptureAt(s, BoundedRun, k).None?;
    BoundedRunCaptureIff(s, i, sp);
  }

  /** `match` returns the capture at the leftmost position where the pattern matches. */
  lemma LeftmostWins(s: string, p: Pattern, i: nat)
    requires i <= |s|
    requires CaptureAt(s, p, i).Some?
    requires forall k :: 0 <= k < i ==> CaptureAt(s, p, k).None?
    ensures Exec(s, p) == CaptureAt(s, p, i)
  {
    var r := LeftmostMatch(s, p, 0);
    assert r.Some? && r.value == i;
  }

  /** A marker whose letter `w[m]` does not occur in the text, in either case, never matches. */
  lemma MarkerNeedsLetter(s: string, w: string, m: nat)
    requires m < |w|
    requires forall i :: 0 <= i < |s| ==> ToLowerAscii(s[i]) != w[m]
    ensures Exec(s, Marker(w)) == None
  {
    forall i | 0 <= i <= |s|
      ensures CaptureAt(s, Marker(w), i).None?
    {
      if i + |w| <= |s| {
        assert ToLowerAscii(s[i + m]) != w[m];
      }
    }
  }

  /** The marker is not at `i` when its letter `w[m]` is missing at `i + m`. */
  lemma NotMarkerAt(s: string, i: nat, w: string, m: nat)
    requires m < |w|
    requires i + m < |s| ==> ToLowerAscii(s[i + m]) != w[m]
    ensures !MarkerAt(s, i, w)
  {
  }

  /** The leftmost marker wins: when the marker first occurs at `m` and is
      followed by non-digits and then a run of four or more digits, the
      pattern captures (up to eight digits of) that run. */
  lemma FirstMarkerMatch(s: string, w: string, m: nat, sp: Span)
    requires m <= |s|
    requires forall k :: 0 <= k < m ==> !MarkerAt(s, k, w)
    requires MarkerCaptures(s, w, m, sp)
    ensures Exec(s, Marker(w)) == Some(sp)
  {
    MarkerCaptureComplete(s, w, m, sp);
    LeftmostWins(s, Marker(w), m);
  }

  /** `s[k..e]` is a free-standing run of four to eight digits: no letter,
      digit or underscore on either side. */
  predicate FreeRunAt(s: string, k: nat, e: nat) {
    && IsCapture(s, Span(k, e))
    && (k == 0 || !IsWordChar(s[k - 1]))
    && (e == |s| || !IsWordChar(s[e]))
  }

  /** The fallback captures the first free-standing run of four to eight
      digits: one that no other free-standing run starts before. */
  lemma FirstBoundedRun(s: string, sp: Span)
    requires FreeRunAt(s, sp.start, sp.end)
    requires forall k, e :: 0 <= k < sp.start && k <= e <= |s| ==> !FreeRunAt(s, k, e)
    ensures Exec(s, BoundedRun) == Some(sp)
  {
    BoundedRunCaptureIff(s, sp.start, sp);
    forall k | 0 <= k < sp.start
      ensures CaptureAt(s, BoundedRun, k).None?
    {
      var e := k + DigitRun(s, k);
      assert !FreeRunAt(s, k, e);
      BoundedRunCaptureIff(s, k, Span(k, e));
    }
    LeftmostWins(s, BoundedRun, sp.start);
  }

  // Worked examples, each for every code of four to eight digits. Each
  // `...Chars` lemma reads off the characters of the example text; the
  // `...Layout` lemma derives, from those characters alone, where the
  // patterns can match.

  lemma OtpMarkerChars(code: string)
    ensures var s := "Your OTP is " + code + ", valid for 5 minutes";
            && |s| == 33 + |code|
            && (forall k :: 0 <= k < 12 ==> s[k] == "Your OTP is "[k])
            && (forall k :: 0 <= k < |code| ==> s[12 + k] == code[k])
            && s[12 + |code|] == ','
            && s[12..12 + |code|] == code
  {
    var s := "Your OTP is " + code + ", valid for 5 minutes";
    assert s[12..12 + |code|] == code;
  }

  lemma OtpMarkerLayout(s: string, code: string)
    requires 4 <= |code| <= 8 && AllDigits(code)
    requires |s| > 12 + |code|
    requires forall k :: 0 <= k < 12 ==> s[k] == "Your OTP is "[k]
    requires forall k :: 0 <= k < |code| ==> s[12 + k] == code[k]
    requires s[12 + |code|] == ','
    ensures forall k :: 0 <= k < 5 ==> !MarkerAt(s, k, "otp")
    ensures MarkerCaptures(s, "otp", 5, Span(12, 12 + |code|))
  {
    forall k | 0 <= k < 5
      ensures !MarkerAt(s, k, "otp")
    {
      NotMarkerAt(s, k, "otp", if k == 1 then 1 else 0);
    }
    forall k | 12 <= k < 12 + |code|
      ensures IsDigit(s[k])
    {
      assert s[12 + (k - 12)] == code[k - 12];
    }
    assert MarkerAt(s, 5, "otp");
  }

  /** "Your OTP is 482913, valid for 5 minutes" gives "482913". */
  lemma ExampleOtpMarker(code: string)
    requires 4 <= |code| <= 8 && AllDigits(code)
    ensures ExtractOtpFromText(Some("Your OTP is " + code + ", valid for 5 minutes")) == Some(code)
  {
    var s := "Your OTP is " + code + ", valid for 5 minutes";
    var sp := Span(12, 12 + |code|);
    OtpMarkerChars(code);
    OtpMarkerLayout(s, code);
    assert s[sp.start..sp.end] == code;
    FirstMarkerMatch(s, "otp", 5, sp);
    OtpMarkerFirst(s, sp);
  }

  lemma VerificationCodeChars(code: string)
    ensures var s := "verification code: " + code;
            && |s| == 19 + |code|
            && (forall k :: 0 <= k < 19 ==> s[k] == "verification code: "[k])
            && (forall k :: 0 <= k < |code| ==> s[19 + k] == code[k])
            && s[19..] == code
  {
    var s := "verification code: " + code;
    assert s[19..] == code;
  }

  lemma VerificationCodeLayout(s: string, code: string)
    requires 4 <= |code| <= 8 && AllDigits(code)
    requires |s| == 19 + |code|
    requires forall k :: 0 <= k < 19 ==> s[k] == "verification code: "[k]
    requires forall k :: 0 <= k < |code| ==> s[19 + k] == code[k]
    ensures forall k :: 0 <= k < |s| ==> ToLowerAscii(s[k]) != 'p'
    ensures MarkerCaptures(s, "verification code", 0, Span(19, |s|))
  {
    forall k | 0 <= k < |s|
      ensures ToLowerAscii(s[k]) != 'p' && (19 <= k ==> IsDigit(s[k]))
    {
      if k < 19 {
        assert s[k] == "verification code: "[k];
      } else {
        assert s[19 + (k - 19)] == code[k - 19];
      }
    }
    assert MarkerAt(s, 0, "verification code");
  }

  /** "verification code: 7731" gives "7731". */
  lemma ExampleVerificationCode(code: string)
    requires 4 <= |code| <= 8 && AllDigits(code)
    ensures ExtractOtpFromText(Some("verification code: " + code)) == Some(code)
  {
    var s := "verification code: " + code;
    var sp := Span(19, 19 + |code|);
    VerificationCodeChars(code);
    VerificationCodeLayout(s, code);
    assert s[sp.start..sp.end] == code;
    MarkerNeedsLetter(s, "otp", 2);
    FirstMarkerMatch(s, "verification code", 0, sp);
    CodeMarkerSecond(s, sp);
  }

  lemma BareDigitsChars(code: string)
    ensures var s := "Order #" + code + " confirmed";
            && |s| == 17 + |code|
            && (forall k :: 0 <= k < 7 ==> s[k] == "Order #"[k])
            && (forall k :: 0 <= k < |code| ==> s[7 + k] == code[k])
            && (forall k :: 0 <= k < 10 ==> s[7 + |code| + k] == " confirmed"[k])
            && s[7..7 + |code|] == code
  {
    var s := "Order #" + code + " confirmed";
    assert s[7..7 + |code|] == code;
  }

  lemma BareDigitsLayout(s: string, code: string)
    requires 4 <= |code| <= 8 && AllDigits(code)
    requires |s| == 17 + |code|
    requires forall k :: 0 <= k < 7 ==> s[k] == "Order #"[k]
    requires forall k :: 0 <= k < |code| ==> s[7 + k] == code[k]
    requires forall k :: 0 <= k < 10 ==> s[7 + |code| + k] == " confirmed"[k]
    ensures forall k :: 0 <= k < |s| ==> ToLowerAscii(s[k]) != 'p' && ToLowerAscii(s[k]) != 'v'
    ensures IsCapture(s, Span(7, 7 + |code|))
    ensures forall k :: 0 <= k < 7 ==> !IsDigit(s[k])
    ensures !IsWordChar(s[6]) && !IsWordChar(s[7 + |code|])
  {
    forall k | 0 <= k < |s|
      ensures ToLowerAscii(s[k]) != 'p' && ToLowerAscii(s[k]) != 'v'
      ensures k < 7 ==> !IsDigit(s[k])
      ensures 7 <= k < 7 + |code| ==> IsDigit(s[k])
    {
      if k < 7 {
        assert s[k] == "Order #"[k];
      } else if k < 7 + |code| {
        assert s[7 + (k - 7)] == code[k - 7];
      } else {
        assert s[7 + |code| + (k - 7 - |code|)] == " confirmed"[k - 7 - |code|];
      }
    }
    assert "Order #"[6] == '#' && " confirmed"[0] == ' ';
  }

  /** "Order #445566 confirmed" gives "445566": without a marker, the loose
      fallback takes any free-standing run of four to eight digits. */
  lemma ExampleBareDigits(code: string)
    requires 4 <= |code| <= 8 && AllDigits(code)
    ensures ExtractOtpFromText(Some("Order #" + code + " confirmed")) == Some(code)
  {
    var s := "Order #" + code + " confirmed";
    var sp := Span(7, 7 + |code|);
    BareDigitsChars(code);
    BareDigitsLayout(s, code);
    assert s[sp.start..sp.end] == code;
    MarkerNeedsLetter(s, "otp", 2);
    MarkerNeedsLetter(s, "verification code", 0);
    forall k, e | 0 <= k < 7 && k <= e <= |s|
      ensures !FreeRunAt(s, k, e)
    {
      assert !IsDigit(s[k]);
    }
    FirstBoundedRun(s, sp);
    BoundedRunLast(s);
  }

  lemma MarkerBeatsEarlierRunChars(ref: string, code: string)
    ensures var s := "Ref " + ref + ", OTP: " + code;
            && |s| == |ref| + 11 + |code|
            && (forall j :: 0 <= j < 4 ==> s[j] == "Ref "[j])
            && (forall j :: 0 <= j < |ref| ==> s[4 + j] == ref[j])
            && (forall j :: 0 <= j < 7 ==> s[|ref| + 4 + j] == ", OTP: "[j])
            && (forall j :: 0 <= j < |code| ==> s[|ref| + 11 + j] == code[j])
            && s[|ref| + 11..] == code
  {
    var s := "Ref " + ref + ", OTP: " + code;
    assert s[|ref| + 11..] == code;
  }

  lemma MarkerBeatsEarlierRunLayout(s: string, ref: string, code: string)
    requires 4 <= |ref| <= 8 && AllDigits(ref)
    requires 4 <= |code| <= 8 && AllDigits(code)
    requires |s| == |ref| + 11 + |code|
    requires forall j :: 0 <= j < 4 ==> s[j] == "Ref "[j]
    requires forall j :: 0 <= j < |ref| ==> s[4 + j] == ref[j]
    requires forall j :: 0 <= j < 7 ==> s[|ref| + 4 + j] == ", OTP: "[j]
    requires forall j :: 0 <= j < |code| ==> s[|ref| + 11 + j] == code[j]
    ensures forall k :: 0 <= k < |ref| + 6 ==> !MarkerAt(s, k, "otp")
    ensures MarkerCaptures(s, "otp", |ref| + 6, Span(|ref| + 11, |s|))
  {
    forall k | 0 <= k < |ref| + 6
      ensures !MarkerAt(s, k, "otp")
    {
      if k < 4 {
        assert s[k] == "Ref "[k];
      } else if k < |ref| + 4 {
        assert s[k] == ref[k - 4];
      } else {
        assert s[k] == ", OTP: "[k - |ref| - 4];
      }
      NotMarkerAt(s, k, "otp", 0);
    }
    forall k | |ref| + 11 <= k < |s|
      ensures IsDigit(s[k])
    {
      assert s[|ref| + 11 + (k - |ref| - 11)] == code[k - |ref| - 11];
    }
    assert ", OTP: "[2] == 'O' && ", OTP: "[3] == 'T' && ", OTP: "[4] == 'P';
    assert ", OTP: "[5] == ':' && ", OTP: "[6] == ' ';
    assert MarkerAt(s, |ref| + 6, "otp");
  }

  /** "Ref 1234, OTP: 5678" gives "5678": a marked code wins over a bare
      digit run that comes earlier in the text. */
  lemma ExampleMarkerBeatsEarlierRun(ref: string, code: string)
    requires 4 <= |ref| <= 8 && AllDigits(ref)
    requires 4 <= |code| <= 8 && AllDigits(code)
    ensures ExtractOtpFromText(Some("Ref " + ref + ", OTP: " + code)) == Some(code)
  {
    var s := "Ref " + ref + ", OTP: " + code;
    var m := |ref| + 6;
    var sp := Span(m + 5, m + 5 + |code|);
    MarkerBeatsEarlierRunChars(ref, code);
    MarkerBeatsEarlierRunLayout(s, ref, code);
    assert s[sp.start..sp.end] == code;
    FirstMarkerMatch(s, "otp", m, sp);
    OtpMarkerFirst(s, sp);
  }
}
