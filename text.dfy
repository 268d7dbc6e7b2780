/**
 * Character-level helpers used by the HTTP client: searching for a
 * character or a substring (std::string::find), whitespace trimming
 * (boost::trim_copy in the classic locale) and decimal numbers
 * (stream formatting of a count, boost::lexical_cast<int> and the
 * unsigned extraction of an istream).
 */
module Text {
  import opened Wrappers

  /** Concatenation regrouped: each of these is one extensionality argument, made once. */
  lemma Assoc<T>(a: seq<T>, b: seq<T>, c: seq<T>)
    ensures a + (b + c) == a + b + c
  {
  }

  lemma AppendEmpty<T>(a: seq<T>)
    ensures a + [] == a && [] + a == a
  {
  }

  /** The characters std::isspace accepts in the "C" locale. */
  predicate IsSpace(c: char) {
    c == ' ' || c == '\t' || c == '\n' || c == '\r' || c as int == 11 || c as int == 12
  }

  predicate IsDigit(c: char) {
    '0' <= c <= '9'
  }

  predicate AllDigits(s: string) {
    forall i :: 0 <= i < |s| ==> IsDigit(s[i])
  }

  /** Index of the first occurrence of `c` in `s`, as std::string::find(char). */
  function FindChar(s: string, c: char): (r: Option<nat>)
    ensures r.None? <==> c !in s
    ensures r.Some? ==> r.value < |s| && s[r.value] == c && c !in s[..r.value]
  {
    if |s| == 0 then None
    else if s[0] == c then Some(0)
    else match FindChar(s[1..], c)
      case None => None
      case Some(i) =>
        assert s[1..][..i] == s[1..i + 1];
        Some(i + 1)
  }

  /** `p` occurs in `s` starting at index `i`. */
  predicate OccursAt(s: string, p: string, i: nat) {
    i + |p| <= |s| && s[i..i + |p|] == p
  }

  /** Index of the first occurrence of `p` in `s`, as std::string::find(string). */
  function FindFrom(s: string, p: string, from: nat): (r: Option<nat>)
    requires from <= |s|
    ensures r.None? <==> forall i :: from <= i <= |s| ==> !OccursAt(s, p, i)
    ensures r.Some? ==> from <= r.value && OccursAt(s, p, r.value)
    ensures r.Some? ==> forall i :: from <= i < r.value ==> !OccursAt(s, p, i)
    decreases |s| - from
  {
    if OccursAt(s, p, from) then Some(from)
    else if from == |s| then None
    else FindFrom(s, p, from + 1)
  }

  function Find(s: string, p: string): (r: Option<nat>)
    ensures r.None? <==> forall i :: 0 <= i <= |s| ==> !OccursAt(s, p, i)
    ensures r.Some? ==> OccursAt(s, p, r.value)
    ensures r.Some? ==> forall i :: 0 <= i < r.value ==> !OccursAt(s, p, i)
  {
    FindFrom(s, p, 0)
  }

  /** `s` with its leading whitespace removed. */
  function TrimLeft(s: string): string {
    if s != [] && IsSpace(s[0]) then TrimLeft(s[1..]) else s
  }

  /** `s` with its trailing whitespace removed. */
  function TrimRight(s: string): string {
    if s != [] && IsSpace(s[|s| - 1]) then TrimRight(s[..|s| - 1]) else s
  }

  /** boost::trim_copy: `s` without its leading and trailing whitespace. */
  function Trim(s: string): string {
    TrimRight(TrimLeft(s))
  }

  predicate AllSpace(s: string) {
    forall i :: 0 <= i < |s| ==> IsSpace(s[i])
  }

  /** TrimLeft cuts a run of whitespace off the front and stops at a non-space. */
  lemma {:induction false} TrimLeftCuts(s: string)
    ensures var r := TrimLeft(s);
      |r| <= |s| && r == s[|s| - |r|..] && AllSpace(s[..|s| - |r|]) && (r != [] ==> !IsSpace(r[0]))
    decreases |s|
  {
    if s != [] && IsSpace(s[0]) {
      TrimLeftCuts(s[1..]);
      var r := TrimLeft(s);
      var k := |s| - |r|;
      assert s[1..][|s| - 1 - |r|..] == s[k..];
      assert forall i :: 1 <= i < k ==> s[..k][i] == s[1..][..k - 1][i - 1];
    } else {
      assert s[|s|..] == [] && s[0..] == s;
    }
  }

  /** TrimRight cuts a run of whitespace off the end and stops at a non-space. */
  lemma {:induction false} TrimRightCuts(s: string)
    ensures var r := TrimRight(s);
      |r| <= |s| && r == s[..|r|] && AllSpace(s[|r|..]) && (r != [] ==> !IsSpace(r[|r| - 1]))
    decreases |s|
  {
    if s != [] && IsSpace(s[|s| - 1]) {
      var t := s[..|s| - 1];
      TrimRightCuts(t);
      var r := TrimRight(s);
      assert t[..|r|] == s[..|r|];
      assert forall j :: 0 <= j < |s| - 1 - |r| ==> s[|r|..][j] == t[|r|..][j];
    } else {
      assert s[..|s|] == s && s[|s|..] == [];
    }
  }

  /**
   * Trim returns the slice of `s` between its whitespace borders: both
   * ends of the result are not whitespace, and only whitespace is cut
   * away on either side.
   */
  lemma TrimIsCore(s: string)
    ensures var r := Trim(s);
      (r != [] ==> !IsSpace(r[0]) && !IsSpace(r[|r| - 1])) &&
      exists a, b :: 0 <= a <= b <= |s| && r == s[a..b] && AllSpace(s[..a]) && AllSpace(s[b..])
  {
    var l := TrimLeft(s);
    var r := TrimRight(l);
    TrimLeftCuts(s);
    TrimRightCuts(l);
    var a := |s| - |l|;
    var b := a + |r|;
    assert r == s[a..b];
    if r != [] {
      assert r[0] == l[0];
    }
    assert forall i :: 0 <= i < |s| - b ==> s[b..][i] == l[|r|..][i];
  }

  /** A text that neither starts nor ends with whitespace trims to itself. */
  lemma TrimOfCore(s: string)
    requires s == [] || (!IsSpace(s[0]) && !IsSpace(s[|s| - 1]))
    ensures Trim(s) == s
  {
  }

  /** Trimming twice trims no more than once. */
  lemma TrimIdempotent(s: string)
    ensures Trim(Trim(s)) == Trim(s)
  {
    TrimIsCore(s);
    TrimOfCore(Trim(s));
  }

  lemma DropAppend<T>(a: seq<T>, b: seq<T>, k: nat)
    requires k <= |a|
    ensures (a + b)[k..] == a[k..] + b
  {
  }

  lemma TakeAppend<T>(a: seq<T>, b: seq<T>)
    ensures (a + b)[..|a|] == a
  {
  }

  lemma DropPast<T>(a: seq<T>, b: seq<T>, k: nat)
    requires |a| <= k <= |a| + |b|
    ensures (a + b)[k..] == b[k - |a|..]
  {
  }

  /** Trimming ignores whitespace added on either side. */
  lemma TrimPadded(pre: string, s: string, post: string)
    requires AllSpace(pre) && AllSpace(post)
    ensures Trim(pre + s + post) == Trim(s)
  {
    Assoc(pre, s, post);
    TrimLeftPrefix(pre, s + post);
    TrimLeftSuffix(s, post);
    TrimRightSuffix(TrimLeft(s), post);
  }

  lemma {:induction false} TrimLeftPrefix(pre: string, r: string)
    requires AllSpace(pre)
    ensures TrimLeft(pre + r) == TrimLeft(r)
    decreases |pre|
  {
    if pre != [] {
      assert (pre + r)[1..] == pre[1..] + r;
      TrimLeftPrefix(pre[1..], r);
    } else {
      assert pre + r == r;
    }
  }

  lemma {:induction false} TrimLeftSuffix(s: string, post: string)
    requires AllSpace(post)
    ensures TrimLeft(s + post) == if TrimLeft(s) == [] then [] else TrimLeft(s) + post
    decreases |s|
  {
    if s == [] {
      AppendEmpty(post);
      TrimLeftPrefix(post, []);
    } else if IsSpace(s[0]) {
      assert (s + post)[1..] == s[1..] + post;
      TrimLeftSuffix(s[1..], post);
    }
  }

  lemma {:induction false} TrimRightSuffix(s: string, post: string)
    requires AllSpace(post)
    ensures TrimRight(s + post) == TrimRight(s)
    decreases |post|
  {
    if post != [] {
      var p' := post[..|post| - 1];
      assert (s + post)[..|s + post| - 1] == s + p';
      TrimRightSuffix(s, p');
    } else {
      AppendEmpty(s);
    }
  }

  function DigitValue(c: char): nat
    requires IsDigit(c)
  {
    (c as int - '0' as int) as nat
  }

  function DigitChar(d: nat): (c: char)
    requires d < 10
    ensures IsDigit(c) && DigitValue(c) == d
  {
    ('0' as int + d) as char
  }

  /** The value of a string of decimal digits, most significant first. */
  function DecimalValue(s: string): nat
    requires AllDigits(s)
  {
    if s == [] then 0 else DecimalValue(s[..|s| - 1]) * 10 + DigitValue(s[|s| - 1])
  }

  /** The decimal form in which an ostream writes a non-negative count. */
  function DecimalString(n: nat): (r: string)
    ensures |r| > 0 && AllDigits(r)
    ensures |r| > 1 ==> r[0] != '0'
  {
    if n < 10 then [DigitChar(n)] else DecimalString(n / 10) + [DigitChar(n % 10)]
  }

  /** Reading back the decimal form of a count gives the count. */
  lemma {:induction false} DecimalRoundTrip(n: nat)
    ensures DecimalValue(DecimalString(n)) == n
    decreases n
  {
    if n >= 10 {
      var s := DecimalString(n);
      assert s[..|s| - 1] == DecimalString(n / 10);
      DecimalRoundTrip(n / 10);
    }
  }

  const IntMin: int := -0x8000_0000
  const IntMax: int := 0x7fff_ffff
  const UIntMax: int := 0xffff_ffff

  /**
   * boost::lexical_cast<int>: the whole text is an optional sign and
   * one or more decimal digits whose value fits a 32-bit int.
   */
  function LexicalCastInt(s: string): (r: Option<int>)
    ensures r.Some? ==> IntMin <= r.value <= IntMax
    ensures r.Some? <==>
      (AllDigits(s) && s != [] && DecimalValue(s) <= IntMax) ||
      (|s| > 1 && s[0] == '+' && AllDigits(s[1..]) && DecimalValue(s[1..]) <= IntMax) ||
      (|s| > 1 && s[0] == '-' && AllDigits(s[1..]) && DecimalValue(s[1..]) <= -IntMin)
    ensures r.Some? ==>
      r.value == (if s[0] == '-' then 0 - DecimalValue(s[1..])
                  else if s[0] == '+' then DecimalValue(s[1..])
                  else DecimalValue(s))
  {
    if |s| > 1 && (s[0] == '+' || s[0] == '-') && AllDigits(s[1..]) then
      var v := DecimalValue(s[1..]);
      if s[0] == '-' then
        (if v <= -IntMin then Some(0 - v) else None)
      else
        (if v <= IntMax then Some(v) else None)
    else if s != [] && AllDigits(s) then
      (var v := DecimalValue(s); if v <= IntMax then Some(v) else None)
    else None
  }

  /** Length of the run of decimal digits at the start of `s`. */
  function DigitRun(s: string): (n: nat)
    ensures n <= |s| && AllDigits(s[..n])
    ensures n < |s| ==> !IsDigit(s[n])
  {
    if s != [] && IsDigit(s[0]) then
      var n := DigitRun(s[1..]) + 1;
      assert s[..n] == [s[0]] + s[1..][..n - 1];
      n
    else 0
  }

  /** Length of the run of whitespace at the start of `s`. */
  function SpaceRun(s: string): (n: nat)
    ensures n <= |s| && (forall i :: 0 <= i < n ==> IsSpace(s[i]))
    ensures n < |s| ==> !IsSpace(s[n])
  {
    if s != [] && IsSpace(s[0]) then SpaceRun(s[1..]) + 1 else 0
  }

  /** The leading whitespace of `s` ends at index `a`. */
  predicate SpacesEnd(s: string, a: nat) {
    a <= |s| && AllSpace(s[..a]) && (a < |s| ==> !IsSpace(s[a]))
  }

  /** The leading run of decimal digits of `s` ends at index `d`. */
  predicate DigitsEnd(s: string, d: nat) {
    d <= |s| && AllDigits(s[..d]) && (d < |s| ==> !IsDigit(s[d]))
  }

  lemma SpacesEndUnique(s: string, a: nat, b: nat)
    requires SpacesEnd(s, a) && SpacesEnd(s, b)
    ensures a == b
  {
  }

  lemma DigitsEndUnique(s: string, d: nat, e: nat)
    requires DigitsEnd(s, d) && DigitsEnd(s, e)
    ensures d == e
  {
  }

  /** Length of the run of non-whitespace at the start of `s`. */
  function WordRun(s: string): (n: nat)
    ensures n <= |s| && (forall i :: 0 <= i < n ==> !IsSpace(s[i]))
    ensures n < |s| ==> IsSpace(s[n])
  {
    if s != [] && !IsSpace(s[0]) then WordRun(s[1..]) + 1 else 0
  }
}
