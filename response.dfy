/**
 * Parsing of the response head by the HTTP client: the status line
 * (handleReadStatusLine, section 6.1 of RFC 1945) and the header block
 * (handleReadHeaders), both read through a std::istream over the bytes
 * received so far.
 */
module Response {
  import opened Wrappers
  import opened Text
  import opened Request

  /** What the istream extractions of the status line leave behind. */
  datatype StatusParse = StatusParse(ok: bool, version: string, code: nat, rest: string)

  /** `stream >> word`: skip whitespace, then take the run of non-whitespace; also what follows it. */
  function ExtractWord(s: string): (r: (string, string))
    ensures |r.0| + |r.1| <= |s|
    ensures forall i :: 0 <= i < |r.0| ==> !IsSpace(r.0[i])
    ensures r.1 != [] ==> IsSpace(r.1[0])
    ensures exists a: nat :: SpacesEnd(s, a) && r.0 + r.1 == s[a..]
  {
    var a := SpaceRun(s);
    var w := WordRun(s[a..]);
    assert SpacesEnd(s, a) && s[a..][..w] + s[a..][w..] == s[a..];
    (s[a..][..w], s[a..][w..])
  }

  /**
   * `stream >> unsigned`: skip whitespace, then read decimal digits.
   * Fails, storing 0, when no digit follows, and fails, storing the
   * largest unsigned int, when the value does not fit 32 bits.
   */
  function ExtractUnsigned(s: string): (r: (bool, nat, string))
    ensures r.0 ==> r.1 <= UIntMax
    ensures |r.2| <= |s|
    ensures exists a: nat, d: nat ::
      && SpacesEnd(s, a) && DigitsEnd(s[a..], d)
      && (r.0 <==> d > 0 && DecimalValue(s[a..][..d]) <= UIntMax)
      && (r.0 ==> r.1 == DecimalValue(s[a..][..d]) && r.2 == s[a..][d..])
      && (!r.0 && d == 0 ==> r.1 == 0 && r.2 == s[a..])
      && (!r.0 && d > 0 ==> r.1 == UIntMax && r.2 == s[a..][d..])
  {
    var b := SpaceRun(s);
    var t := s[b..];
    var d := DigitRun(t);
    assert SpacesEnd(s, b) && DigitsEnd(s[b..], d);
    if d == 0 then (false, 0, t)
    else
      var v := DecimalValue(t[..d]);
      if v > UIntMax then (false, UIntMax, t[d..]) else (true, v, t[d..])
  }

  /** `std::getline` on a stream that is not at its end: what is left after the first '\n'. */
  function SkipLine(s: string): (r: string)
    ensures |r| <= |s|
  {
    match FindChar(s, '\n')
    case None => []
    case Some(n) => s[n + 1..]
  }

  /** `http_version.substr(0, 5) == "HTTP/"`. */
  predicate HasHttpPrefix(version: string) {
    |version| >= 5 && version[..5] == "HTTP/"
  }

  /**
   * The status line as the client reads it from `buf` (the whole
   * response buffer): a word, an unsigned status code and the rest of
   * the line. Any failed extraction (the word ends the buffer, no
   * digits, a code over 32 bits, or nothing left for getline) or a word
   * not starting with "HTTP/" rejects the line. `rest` is what stays in
   * the buffer for the header read.
   */
  function ReadStatusLine(buf: string): (r: StatusParse)
    ensures r.ok ==> HasHttpPrefix(r.version) && r.code <= UIntMax
    ensures r.version == ExtractWord(buf).0
    ensures !HasHttpPrefix(ExtractWord(buf).0) ==> !r.ok
    ensures |r.rest| <= |buf|
  {
    var (version, after) := ExtractWord(buf);
    if after == [] then
      // the word ends the buffer: the code extraction meets end-of-file
      StatusParse(false, version, 0, [])
    else
      var (good, code, tail) := ExtractUnsigned(after);
      if !good then StatusParse(false, version, code, tail)
      else if tail == [] then
        // getline at end-of-file extracts nothing and fails
        StatusParse(false, version, code, [])
      else
        StatusParse(HasHttpPrefix(version), version, code, SkipLine(tail))
  }

  /**
   * What ReadStatusLine accepts: the first word must start with "HTTP/",
   * the code after it must parse as an unsigned number and something
   * must be left of the line for getline. The stored code is what the
   * extraction gave, and an accepted line leaves what follows it.
   */
  lemma ReadStatusLineMeaning(buf: string)
    ensures var u := ExtractUnsigned(ExtractWord(buf).1);
      var r := ReadStatusLine(buf);
      && (r.ok <==> HasHttpPrefix(ExtractWord(buf).0) && u.0 && u.2 != [])
      && r.code == u.1
      && (r.ok ==> r.rest == SkipLine(u.2))
  {
  }

  lemma ExtractWordOf(word: string, after: string)
    requires word != [] && !IsSpace(word[0])
    requires forall i :: 0 <= i < |word| ==> !IsSpace(word[i])
    requires after != [] && IsSpace(after[0])
    ensures ExtractWord(word + after) == (word, after)
  {
    var s := word + after;
    assert SpaceRun(s) == 0;
    assert s[0..] == s;
    WordRunStops(s, |word|);
    assert s[..|word|] == word && s[|word|..] == after;
  }

  lemma ExtractUnsignedOf(code: nat, tail: string)
    requires code <= UIntMax
    requires tail != [] && !IsDigit(tail[0])
    ensures ExtractUnsigned(" " + DecimalString(code) + tail) == (true, code, tail)
  {
    var digits := DecimalString(code);
    var s := " " + digits + tail;
    assert s[1..] == digits + tail;
    assert SpaceRun(s) == 1 by {
      assert SpaceRun(s[1..]) == 0;
    }
    var t := s[1..];
    assert t[..|digits|] == digits;
    DigitRunStops(t, |digits|);
    assert t[|digits|..] == tail;
    DecimalRoundTrip(code);
  }

  lemma SkipLineOf(pre: string, more: string)
    requires '\n' !in pre
    ensures SkipLine(pre + "\n" + more) == more
  {
    var s := pre + "\n" + more;
    assert s[..|pre|] == pre;
    FindCharAt(s, '\n', |pre|);
    assert s[|pre| + 1..] == more;
  }

  /**
   * A well-formed status line "HTTP/<ver> <code> <reason>" CRLF is
   * accepted with its code, and the bytes after it stay in the buffer.
   */
  lemma StatusLineAccepted(ver: string, code: nat, reason: string, more: string)
    requires forall i :: 0 <= i < |ver| ==> !IsSpace(ver[i])
    requires code <= UIntMax
    requires '\n' !in reason
    ensures ReadStatusLine("HTTP/" + ver + " " + DecimalString(code) + " " + reason + "\r\n" + more)
      == StatusParse(true, "HTTP/" + ver, code, more)
  {
    HttpWord(ver);
    WordStatusLine("HTTP/" + ver, code, reason, more);
  }

  lemma WordStatusLine(word: string, code: nat, reason: string, more: string)
    requires HasHttpPrefix(word)
    requires forall i :: 0 <= i < |word| ==> !IsSpace(word[i])
    requires code <= UIntMax
    requires '\n' !in reason
    ensures ReadStatusLine(word + " " + DecimalString(code) + " " + reason + "\r\n" + more)
      == StatusParse(true, word, code, more)
  {
    StatusLineGrouped(word, code, reason, more);
    StatusLineText(word, DecimalString(code), reason, more);
  }

  lemma StatusLineGrouped(word: string, code: nat, reason: string, more: string)
    requires HasHttpPrefix(word)
    requires forall i :: 0 <= i < |word| ==> !IsSpace(word[i])
    requires code <= UIntMax
    requires '\n' !in reason
    ensures ReadStatusLine(word + (" " + DecimalString(code) + ((" " + reason + "\r") + "\n" + more)))
      == StatusParse(true, word, code, more)
  {
    var tail := " " + reason + "\r" + "\n" + more;
    var after := " " + DecimalString(code) + tail;
    AfterCode(code, reason, more);
    AfterWord(word, after);
    StatusLineOfParts(word, after, code, tail, more);
  }

  lemma AfterWord(word: string, after: string)
    requires word != [] && !IsSpace(word[0])
    requires forall i :: 0 <= i < |word| ==> !IsSpace(word[i])
    requires after != [] && after[0] == ' '
    ensures ExtractWord(word + after) == (word, after)
  {
    ExtractWordOf(word, after);
  }

  /** The code and the rest of the status line after the version word. */
  lemma AfterCode(code: nat, reason: string, more: string)
    requires code <= UIntMax
    requires '\n' !in reason
    ensures var tail := " " + reason + "\r" + "\n" + more;
      ExtractUnsigned(" " + DecimalString(code) + tail) == (true, code, tail) &&
      SkipLine(tail) == more && tail != []
  {
    var line := " " + reason + "\r";
    var tail := line + "\n" + more;
    assert tail[0] == ' ';
    ExtractUnsignedOf(code, tail);
    SkipLineOf(line, more);
  }

  lemma StatusLineText(word: string, digits: string, reason: string, more: string)
    ensures word + (" " + digits + ((" " + reason + "\r") + "\n" + more))
      == word + " " + digits + " " + reason + "\r\n" + more
  {
  }

  lemma HttpWord(ver: string)
    requires forall i :: 0 <= i < |ver| ==> !IsSpace(ver[i])
    ensures HasHttpPrefix("HTTP/" + ver)
    ensures forall i :: 0 <= i < |"HTTP/" + ver| ==> !IsSpace(("HTTP/" + ver)[i])
  {
    assert ("HTTP/" + ver)[..5] == "HTTP/";
  }

  lemma StatusLineOfParts(word: string, after: string, code: nat, tail: string, rest: string)
    requires after != [] && ExtractWord(word + after) == (word, after)
    requires ExtractUnsigned(after) == (true, code, tail)
    requires tail != [] && SkipLine(tail) == rest
    requires HasHttpPrefix(word)
    ensures ReadStatusLine(word + after) == StatusParse(true, word, code, rest)
  {
  }

  /** A status line whose first word does not start with "HTTP/" is rejected, whatever follows. */
  lemma StatusLineRejectsWord(word: string, after: string)
    requires word != [] && forall i :: 0 <= i < |word| ==> !IsSpace(word[i])
    requires after != [] && IsSpace(after[0])
    requires !HasHttpPrefix(word)
    ensures !ReadStatusLine(word + after).ok
  {
    ExtractWordOf(word, after);
  }

  /**
   * A status line whose code, after the whitespace that follows the
   * first word, does not start with a digit (or is missing) is rejected.
   */
  lemma StatusLineRejectsCode(buf: string, k: nat)
    requires SpacesEnd(ExtractWord(buf).1, k)
    requires k == |ExtractWord(buf).1| || !IsDigit(ExtractWord(buf).1[k])
    ensures !ReadStatusLine(buf).ok
  {
    var after := ExtractWord(buf).1;
    var b := SpaceRun(after);
    assert SpacesEnd(after, b);
    SpacesEndUnique(after, b, k);
    assert DigitRun(after[b..]) == 0 by {
      if b < |after| { assert after[b..][0] == after[b]; }
    }
  }

  /** A status line whose code has more digits than fit 32 bits unsigned is rejected. */
  lemma StatusLineRejectsOverflow(buf: string, k: nat, n: nat)
    requires SpacesEnd(ExtractWord(buf).1, k)
    requires DigitsEnd(ExtractWord(buf).1[k..], n)
    requires DecimalValue(ExtractWord(buf).1[k..][..n]) > UIntMax
    ensures !ReadStatusLine(buf).ok
  {
    var after := ExtractWord(buf).1;
    var b := SpaceRun(after);
    assert SpacesEnd(after, b);
    SpacesEndUnique(after, b, k);
    var d := DigitRun(after[b..]);
    assert DigitsEnd(after[b..], d);
    DigitsEndUnique(after[b..], d, n);
  }

  lemma WordRunStops(s: string, k: nat)
    requires k < |s| && IsSpace(s[k]) && forall i :: 0 <= i < k ==> !IsSpace(s[i])
    ensures WordRun(s) == k
    decreases k
  {
    if k > 0 {
      WordRunStops(s[1..], k - 1);
    }
  }

  lemma DigitRunStops(s: string, k: nat)
    requires k < |s| && !IsDigit(s[k]) && AllDigits(s[..k])
    ensures DigitRun(s) == k
    decreases k
  {
    if k > 0 {
      assert s[1..][..k - 1] == s[1..k];
      DigitRunStops(s[1..], k - 1);
    }
  }

  /** `std::getline`: the text up to the first '\n' (not included) and what follows it. */
  function NextLine(s: string): (r: (string, string))
    requires s != []
    ensures |r.1| < |s|
    ensures '\n' !in r.0
    ensures s == r.0 + "\n" + r.1 || (s == r.0 && r.1 == [])
  {
    match FindChar(s, '\n')
    case None => (s, [])
    case Some(n) => (s[..n], s[n + 1..])
  }

  /** The header a line contributes: its text around the first ':', trimmed, or nothing without a ':'. */
  function HeaderOf(line: string): (r: seq<Header>)
    ensures |r| <= 1
    ensures r == [] <==> ':' !in line
  {
    match FindChar(line, ':')
    case None => []
    case Some(i) => [Header(Trim(line[..i]), Trim(line[i + 1..]))]
  }

  /**
   * The header block as handleReadHeaders reads it: lines are taken
   * until the line "\r" or the end of the buffer, each line with a ':'
   * gives one header, in order; `rest` is what is left in the buffer,
   * which the client appends to the body.
   */
  function ParseHeaderBlock(s: string): (r: (seq<Header>, string))
    ensures |r.1| <= |s|
    decreases |s|
  {
    if s == [] then ([], [])
    else
      var (line, after) := NextLine(s);
      if line == "\r" then ([], after)
      else
        var (hs, rest) := ParseHeaderBlock(after);
        (HeaderOf(line) + hs, rest)
  }

  /**
   * The getline loop of handleReadHeaders: one line at a time,
   * appending the header of each line that has a ':'.
   */
  method ReadHeaderLines(buf: string) returns (headers: seq<Header>, rest: string)
    ensures (headers, rest) == ParseHeaderBlock(buf)
  {
    ghost var want := ParseHeaderBlock(buf);
    headers := [];
    rest := buf;
    var done := false;
    AppendEmpty(want.0);
    while !done && rest != []
      invariant done ==> headers == want.0 && rest == want.1
      invariant !done ==> headers + ParseHeaderBlock(rest).0 == want.0 && ParseHeaderBlock(rest).1 == want.1
      decreases !done, |rest|
    {
      var (line, after) := NextLine(rest);
      HeaderBlockStep(rest);
      if line == "\r" {
        AppendEmpty(headers);
        rest := after;
        done := true;
      } else {
        Assoc(headers, HeaderOf(line), ParseHeaderBlock(after).0);
        headers := headers + HeaderOf(line);
        rest := after;
      }
    }
    if !done {
      AppendEmpty(headers);
    }
  }

  /** One turn of the getline loop, as ParseHeaderBlock takes it. */
  lemma HeaderBlockStep(s: string)
    requires s != []
    ensures var (line, after) := NextLine(s);
      ParseHeaderBlock(s) ==
        if line == "\r" then ([], after)
        else (HeaderOf(line) + ParseHeaderBlock(after).0, ParseHeaderBlock(after).1)
  {
  }

  /** The headers as a server that received `hs` on their own lines reports them. */
  function TrimmedHeaders(hs: seq<Header>): (r: seq<Header>)
    ensures |r| == |hs|
  {
    if hs == [] then [] else [Header(Trim(hs[0].name), Trim(hs[0].value))] + TrimmedHeaders(hs[1..])
  }

  /** A header name or value that fits on one line of the wire format. */
  predicate OneLine(h: Header) {
    ':' !in h.name && '\n' !in h.name && '\n' !in h.value
  }

  lemma HeaderLinesCons(h: Header, hs: seq<Header>)
    ensures HeaderLines([h] + hs) == HeaderLine(h) + HeaderLines(hs)
  {
    HeaderLinesAppend([h], hs);
    HeaderLinesSnoc([], h);
    assert [] + [h] == [h];
  }

  /** One header line in the request format, followed by more text, parses as that header. */
  lemma HeaderLineParses(h: Header, more: string)
    requires OneLine(h)
    ensures NextLine(HeaderLine(h) + more) == (h.name + ": " + h.value + "\r", more)
    ensures HeaderOf(h.name + ": " + h.value + "\r") == [Header(Trim(h.name), Trim(h.value))]
    ensures h.name + ": " + h.value + "\r" != "\r"
  {
    var line := h.name + ": " + h.value + "\r";
    assert HeaderLine(h) + more == line + "\n" + more;
    NextLineOf(line, more);
    HeaderOfLine(h.name, h.value);
    assert line[|h.name|] == ':';
  }

  lemma FindCharAt(s: string, c: char, n: nat)
    requires n < |s| && s[n] == c && c !in s[..n]
    ensures FindChar(s, c) == Some(n)
  {
    assert c in s;
    assert forall i :: 0 <= i < n ==> s[..n][i] == s[i];
  
  }

  lemma NextLineOf(line: string, more: string)
    requires '\n' !in line
    ensures NextLine(line + "\n" + more) == (line, more)
  {
    var s := line + "\n" + more;
    assert s[..|line|] == line;
    FindCharAt(s, '\n', |line|);
    assert s[|line| + 1..] == more;
  }

  lemma HeaderOfLine(name: string, value: string)
    requires ':' !in name
    ensures HeaderOf(name + ": " + value + "\r") == [Header(Trim(name), Trim(value))]
  {
    HeaderLineSplit(name, value);
    HeaderOfAt(name + ": " + value + "\r", |name|);
    TrimPadded(" ", value, "\r");
  }

  lemma HeaderOfAt(line: string, i: nat)
    requires FindChar(line, ':') == Some(i)
    ensures i < |line| && HeaderOf(line) == [Header(Trim(line[..i]), Trim(line[i + 1..]))]
  {
  }

  /** A header line splits at the ':' right after the name. */
  lemma HeaderLineSplit(name: string, value: string)
    requires ':' !in name
    ensures var line := name + ": " + value + "\r";
      FindChar(line, ':') == Some(|name|) && line[..|name|] == name &&
      line[|name| + 1..] == " " + value + "\r"
  {
    var line := name + ": " + value + "\r";
    var rest := ": " + value + "\r";
    Assoc(name, ": ", value);
    Assoc(name, ": " + value, "\r");
    TakeAppend(name, rest);
    FindCharAt(line, ':', |name|);
    DropPast(name, rest, |name| + 1);
    DropAppend(": " + value, "\r", 1);
    DropAppend(": ", value, 1);
    assert ": "[1..] == " ";
  }

  /**
   * Header lines written in the request format and closed by a blank
   * line parse back to the same headers, trimmed and in the same order,
   * and whatever follows the blank line is left for the body.
   */
  lemma {:induction false} HeaderBlockRoundTrip(hs: seq<Header>, body: string)
    requires forall i :: 0 <= i < |hs| ==> OneLine(hs[i])
    ensures ParseHeaderBlock(HeaderLines(hs) + "\r\n" + body) == (TrimmedHeaders(hs), body)
    decreases |hs|
  {
    var s := HeaderLines(hs) + "\r\n" + body;
    if hs == [] {
      AppendEmpty("\r\n");
      HeaderBlockEnd(body);
    } else {
      var h := hs[0];
      assert hs == [h] + hs[1..];
      HeaderLinesCons(h, hs[1..]);
      var lines := HeaderLines(hs[1..]);
      var after := lines + "\r\n" + body;
      Assoc(HeaderLine(h), lines, "\r\n");
      Assoc(HeaderLine(h), lines + "\r\n", body);
      HeaderBlockCons(h, after);
      HeaderBlockRoundTrip(hs[1..], body);
    }
  }

  /** The blank line ends the header block; what follows it is left. */
  lemma HeaderBlockEnd(body: string)
    ensures ParseHeaderBlock("\r\n" + body) == ([], body)
  {
    var s := "\r\n" + body;
    assert s == "\r" + "\n" + body;
    NextLineOf("\r", body);
    HeaderBlockStep(s);
  }

  /** A header line in the request format gives its header, trimmed, before those of the lines after it. */
  lemma HeaderBlockCons(h: Header, after: string)
    requires OneLine(h)
    ensures ParseHeaderBlock(HeaderLine(h) + after) ==
      ([Header(Trim(h.name), Trim(h.value))] + ParseHeaderBlock(after).0, ParseHeaderBlock(after).1)
  {
    HeaderLineParses(h, after);
    HeaderBlockStep(HeaderLine(h) + after);
  }
}
