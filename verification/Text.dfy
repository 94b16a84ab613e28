/** The string operations of the Rust standard library that the release tooling leans on:
    `split`, `split_once`, `join`, decimal rendering and the ASCII and Unicode character classes. */
module Text {
  import opened Wrappers

  predicate IsDigit(c: char) {
    '0' <= c <= '9'
  }

  predicate IsAlphanumeric(c: char) {
    IsDigit(c) || 'a' <= c <= 'z' || 'A' <= c <= 'Z'
  }

  predicate IsHexLetter(c: char) {
    IsDigit(c) || 'a' <= c <= 'f'
  }

  predicate IsLowerHex(s: string) {
    forall i :: 0 <= i < |s| ==> IsHexLetter(s[i])
  }

  /** The alphabet of transaction ids and of SemVer identifiers. */
  predicate IsIdentifierChar(c: char) {
    IsAlphanumeric(c) || c == '-'
  }

  // ---- the classes, letter by letter ----

  predicate HexDigits(s: string, n: nat) {
    |s| == n && forall c :: c in s ==> c in "0123456789abcdef"
  }

  lemma DigitLetter(c: char)
    ensures c in "0123456789" <==> IsDigit(c)
  {
    var digits := "0123456789";
    assert |digits| == 10;
    if IsDigit(c) {
      assert digits[c as int - '0' as int] == c;
    }
  }

  lemma HexLetter(c: char)
    ensures c in "0123456789abcdef" <==> IsHexLetter(c)
  {
    var digits := "0123456789abcdef";
    assert |digits| == 16;
    if IsDigit(c) {
      assert digits[c as int - '0' as int] == c;
    } else if IsHexLetter(c) {
      assert digits[10 + (c as int - 'a' as int)] == c;
    }
  }

  lemma HexIff(s: string, n: nat)
    ensures HexDigits(s, n) <==> |s| == n && IsLowerHex(s)
  {
    forall c: char ensures c in "0123456789abcdef" <==> IsHexLetter(c) {
      HexLetter(c);
    }
    if HexDigits(s, n) {
      assert forall i :: 0 <= i < |s| ==> s[i] in s;
    }
  }

  predicate IdentifierLetter(c: char) {
    c in "0123456789" || c in "ABCDEFGHIJKLMNOPQRSTUVWXYZ" || c in "abcdefghijklmnopqrstuvwxyz" || c == '-'
  }

  lemma IdentifierLetterIff(c: char)
    ensures IdentifierLetter(c) <==> IsIdentifierChar(c)
  {
    DigitLetter(c);
    UpperLetter(c);
    LowerLetter(c);
  }

  lemma UpperLetter(c: char)
    ensures c in "ABCDEFGHIJKLMNOPQRSTUVWXYZ" <==> 'A' <= c <= 'Z'
  {
    var letters := "ABCDEFGHIJKLMNOPQRSTUVWXYZ";
    assert |letters| == 26;
    if 'A' <= c <= 'Z' {
      assert letters[c as int - 'A' as int] == c;
    }
  }

  lemma LowerLetter(c: char)
    ensures c in "abcdefghijklmnopqrstuvwxyz" <==> 'a' <= c <= 'z'
  {
    var letters := "abcdefghijklmnopqrstuvwxyz";
    assert |letters| == 26;
    if 'a' <= c <= 'z' {
      assert letters[c as int - 'a' as int] == c;
    }
  }

  /** Unicode general category Cc. */
  predicate IsControl(c: char) {
    c <= '\U{1F}' || '\U{7F}' <= c <= '\U{9F}'
  }

  /** The Unicode White_Space property, which Rust's `trim` uses. */
  predicate IsWhitespace(c: char) {
    || '\U{09}' <= c <= '\U{0D}' || c == ' ' || c == '\U{85}' || c == '\U{A0}' || c == '\U{1680}'
    || '\U{2000}' <= c <= '\U{200A}' || c == '\U{2028}' || c == '\U{2029}' || c == '\U{202F}'
    || c == '\U{205F}' || c == '\U{3000}'
  }

  /** `to_ascii_lowercase`. */
  function ToLower(c: char): char {
    if 'A' <= c <= 'Z' then (c as int - 'A' as int + 'a' as int) as char else c
  }

  function Lower(s: string): (r: string)
    ensures |r| == |s|
  {
    seq(|s|, i requires 0 <= i < |s| => ToLower(s[i]))
  }

  predicate All(s: string, p: char -> bool) {
    forall i :: 0 <= i < |s| ==> p(s[i])
  }

  predicate EndsWith(s: string, suffix: string) {
    |suffix| <= |s| && s[|s| - |suffix|..] == suffix
  }

  function TrimStart(s: string): (r: string)
    ensures |r| <= |s| && r == s[|s| - |r|..]
    ensures r != "" ==> !IsWhitespace(r[0])
  {
    if s != "" && IsWhitespace(s[0]) then TrimStart(s[1..]) else s
  }

  function TrimEnd(s: string): (r: string)
    ensures r <= s
    ensures r != "" ==> !IsWhitespace(r[|r| - 1])
  {
    if s != "" && IsWhitespace(s[|s| - 1]) then TrimEnd(s[..|s| - 1]) else s
  }

  function Trim(s: string): (r: string) {
    TrimEnd(TrimStart(s))
  }

  /** `trim` leaves a text alone exactly when neither end is white space. */
  lemma TrimFixed(s: string)
    ensures Trim(s) == s <==> s == "" || (!IsWhitespace(s[0]) && !IsWhitespace(s[|s| - 1]))
  {
    if s != "" && IsWhitespace(s[0]) {
      assert |Trim(s)| <= |TrimStart(s)| < |s|;
    }
  }

  // ---- split and join ----

  function Split(s: string, c: char): (parts: seq<string>)
    ensures |parts| >= 1
  {
    if s == "" then [""]
    else if s[0] == c then [""] + Split(s[1..], c)
    else var rest := Split(s[1..], c); [[s[0]] + rest[0]] + rest[1..]
  }

  function Join(parts: seq<string>, c: char): string
    requires parts != []
  {
    if |parts| == 1 then parts[0] else parts[0] + [c] + Join(parts[1..], c)
  }

  lemma {:induction false} JoinSplit(s: string, c: char)
    ensures Join(Split(s, c), c) == s
    ensures forall part :: part in Split(s, c) ==> c !in part
  {
    if s != "" {
      JoinSplit(s[1..], c);
      var rest := Split(s[1..], c);
      if s[0] == c {
        assert Split(s, c)[1..] == rest;
        assert s == [c] + s[1..];
      } else {
        var head := [s[0]] + rest[0];
        assert Split(s, c) == [head] + rest[1..];
        assert rest[0] in rest;
        assert forall part :: part in rest[1..] ==> part in rest;
        if |rest| > 1 {
          assert Split(s, c)[1..] == rest[1..];
          assert Join(Split(s, c), c) == [s[0]] + Join(rest, c);
        }
      }
    }
  }

  lemma {:induction false} SplitPrefix(a: string, s: string, c: char)
    requires c !in a
    ensures Split(a + s, c) == [a + Split(s, c)[0]] + Split(s, c)[1..]
  {
    if a == "" {
      assert a + s == s;
      assert "" + Split(s, c)[0] == Split(s, c)[0];
      assert Split(s, c) == [Split(s, c)[0]] + Split(s, c)[1..];
    } else {
      SplitPrefix(a[1..], s, c);
      assert (a + s)[1..] == a[1..] + s;
      assert a[0] in a;
      assert [a[0]] + (a[1..] + Split(s, c)[0]) == a + Split(s, c)[0];
    }
  }

  lemma {:induction false} SplitJoin(parts: seq<string>, c: char)
    requires parts != []
    requires forall part :: part in parts ==> c !in part
    ensures Split(Join(parts, c), c) == parts
  {
    if |parts| == 1 {
      SplitPrefix(parts[0], "", c);
      assert parts[0] + "" == parts[0];
    } else {
      var tail := Join(parts[1..], c);
      SplitJoin(parts[1..], c);
      assert Join(parts, c) == parts[0] + ([c] + tail);
      SplitPrefix(parts[0], [c] + tail, c);
      assert ([c] + tail)[1..] == tail;
      assert Split([c] + tail, c) == [""] + parts[1..];
      assert parts[0] + "" == parts[0];
    }
  }

  /** Rust's `split_once`: cut at the first separator. */
  function SplitOnce(s: string, c: char): (r: Option<(string, string)>)
    ensures r.None? <==> c !in s
    ensures r.Some? ==> s == r.value.0 + [c] + r.value.1 && c !in r.value.0
  {
    if s == "" then None
    else if s[0] == c then
      assert s == "" + [c] + s[1..];
      Some(("", s[1..]))
    else
      match SplitOnce(s[1..], c)
      case None => None
      case Some((a, b)) => Some(([s[0]] + a, b))
  }

  /** The first cut is the only one whose left side is free of the separator. */
  lemma {:induction false} SplitOnceUnique(a: string, b: string, c: char)
    requires c !in a
    ensures SplitOnce(a + [c] + b, c) == Some((a, b))
  {
    var s := a + [c] + b;
    assert s[|a|] == c;
    var (x, y) := SplitOnce(s, c).value;
    assert s[|x|] == c;
    assert forall i :: 0 <= i < |a| ==> s[i] == a[i];
    assert forall i :: 0 <= i < |x| ==> s[i] == x[i];
    assert |x| == |a|;
    assert x == s[..|a|] == a;
    assert y == s[|a| + 1..] == b;
  }

  // ---- lines ----

  function StripCarriageReturn(line: string): string {
    if line != "" && line[|line| - 1] == '\r' then line[..|line| - 1] else line
  }

  /** Rust's `lines`: cut after every line feed, drop the feed and one carriage return before it. */
  function LinesOf(body: string): (lines: seq<string>)
    decreases |body|
  {
    if body == "" then []
    else
      match SplitOnce(body, '\n')
      case None => [body]
      case Some((line, rest)) => [StripCarriageReturn(line)] + LinesOf(rest)
  }

  lemma {:induction false} LinesHaveNoFeed(body: string)
    ensures forall line :: line in LinesOf(body) ==> '\n' !in line
    decreases |body|
  {
    if body != "" && SplitOnce(body, '\n').Some? {
      LinesHaveNoFeed(SplitOnce(body, '\n').value.1);
    }
  }

  function Unlines(lines: seq<string>): string {
    if lines == [] then "" else lines[0] + ['\n'] + Unlines(lines[1..])
  }

  predicate PrintableLine(line: string) {
    '\n' !in line && (line != "" ==> line[|line| - 1] != '\r')
  }

  lemma {:induction false} LinesOfUnlines(lines: seq<string>)
    requires forall line :: line in lines ==> PrintableLine(line)
    ensures LinesOf(Unlines(lines)) == lines
  {
    if lines != [] {
      assert lines[0] in lines && forall line :: line in lines[1..] ==> line in lines;
      LinesOfUnlines(lines[1..]);
      SplitOnceUnique(lines[0], Unlines(lines[1..]), '\n');
      assert StripCarriageReturn(lines[0]) == lines[0];
    }
  }

  // ---- decimal numbers ----

  predicate IsDecimal(s: string) {
    s != "" && forall i :: 0 <= i < |s| ==> IsDigit(s[i])
  }

  /** A decimal with no superfluous leading zero. */
  predicate IsCanonicalDecimal(s: string) {
    IsDecimal(s) && (|s| > 1 ==> s[0] != '0')
  }

  function Digit(n: nat): (c: char)
    requires n < 10
    ensures IsDigit(c) && c as int - '0' as int == n
  {
    ('0' as int + n) as char
  }

  function Decimal(n: nat): (s: string)
    ensures IsCanonicalDecimal(s)
    ensures s == "0" <==> n == 0
    ensures n > 0 ==> s[0] != '0'
  {
    if n < 10 then [Digit(n)] else Decimal(n / 10) + [Digit(n % 10)]
  }

  function DigitValue(c: char): (n: nat)
    requires IsDigit(c)
    ensures n < 10 && Digit(n) == c
  {
    c as int - '0' as int
  }

  function DecimalValue(s: string): nat
    requires forall i :: 0 <= i < |s| ==> IsDigit(s[i])
  {
    if s == "" then 0
    else 10 * DecimalValue(s[..|s| - 1]) + DigitValue(s[|s| - 1])
  }

  lemma {:induction false} ValueOfDecimal(n: nat)
    ensures DecimalValue(Decimal(n)) == n
  {
    var s := Decimal(n);
    if n >= 10 {
      ValueOfDecimal(n / 10);
      assert s[..|s| - 1] == Decimal(n / 10);
    } else {
      assert s[..|s| - 1] == "";
    }
  }

  lemma {:induction false} DecimalOfValue(s: string)
    requires IsCanonicalDecimal(s)
    ensures Decimal(DecimalValue(s)) == s
    ensures s != "0" ==> DecimalValue(s) > 0
  {
    var init, last := s[..|s| - 1], s[|s| - 1];
    assert s == init + [last];
    if init == "" {
      assert DecimalValue(s) == DigitValue(last);
    } else {
      assert s[0] == init[0];
      DecimalOfValue(init);
      assert init != "0";
    }
  }

  // ---- what trimming and cutting into lines do ----

  /** The code points of the Unicode White_Space property, one by one. */
  lemma WhitespaceIs(c: char)
    ensures IsWhitespace(c) <==>
      c as int in {0x09, 0x0A, 0x0B, 0x0C, 0x0D, 0x20, 0x85, 0xA0, 0x1680, 0x2000, 0x2001, 0x2002, 0x2003, 0x2004, 0x2005,
                   0x2006, 0x2007, 0x2008, 0x2009, 0x200A, 0x2028, 0x2029, 0x202F, 0x205F, 0x3000}
  {
  }

  lemma {:induction false} TrimStartTakes(s: string)
    ensures forall i :: 0 <= i < |s| - |TrimStart(s)| ==> IsWhitespace(s[i])
  {
    hide IsWhitespace;
    if s != "" && IsWhitespace(s[0]) {
      TrimStartTakes(s[1..]);
      forall i | 0 < i < |s| - |TrimStart(s)| ensures IsWhitespace(s[i]) {
        assert s[i] == s[1..][i - 1];
      }
    }
  }

  lemma {:induction false} TrimEndTakes(s: string)
    ensures forall i :: |TrimEnd(s)| <= i < |s| ==> IsWhitespace(s[i])
  {
    hide IsWhitespace;
    if s != "" && IsWhitespace(s[|s| - 1]) {
      var init := s[..|s| - 1];
      TrimEndTakes(init);
      forall i | |TrimEnd(s)| <= i < |s| ensures IsWhitespace(s[i]) {
        assert i < |init| ==> s[i] == init[i];
      }
    }
  }

  /** What is trimmed stands at `n`, with nothing but white space around it and none at its own ends. */
  predicate TrimmedAt(s: string, t: string, n: nat) {
    && n + |t| <= |s| && t == s[n..n + |t|]
    && (forall i :: 0 <= i < n ==> IsWhitespace(s[i]))
    && (forall i :: n + |t| <= i < |s| ==> IsWhitespace(s[i]))
    && (t != "" ==> !IsWhitespace(t[0]) && !IsWhitespace(t[|t| - 1]))
  }

  /** Trimming takes white space from both ends, all of it and nothing else. */
  lemma TrimIs(s: string)
    ensures exists n: nat :: TrimmedAt(s, Trim(s), n)
  {
    hide IsWhitespace, TrimStart, TrimEnd;
    var start, t := TrimStart(s), Trim(s);
    var n := |s| - |start|;
    TrimStartTakes(s);
    TrimEndTakes(start);
    forall i | n + |t| <= i < |s| ensures IsWhitespace(s[i]) {
      assert s[i] == start[i - n];
    }
    assert t == start[..|t|] == s[n..][..|t|] == s[n..n + |t|];
    assert t != "" ==> t[0] == start[0];
    assert TrimmedAt(s, t, n);
  }

  /** The first line ends at the first line feed, and loses one carriage return before it; a last line without a feed
      is taken as it is. */
  lemma LinesOfLine(line: string, rest: string)
    requires '\n' !in line
    ensures LinesOf(line + "\n" + rest)
         == [if line != "" && line[|line| - 1] == '\r' then line[..|line| - 1] else line] + LinesOf(rest)
    ensures LinesOf(line) == if line == "" then [] else [line]
  {
    var body := line + "\n" + rest;
    SplitOnceUnique(line, rest, '\n');
    assert line + ['\n'] + rest == body;
    assert body != "";
  }

  /** Lower-casing maps the 26 capitals to their small letters and leaves every other letter alone. */
  lemma ToLowerIs(c: char, k: nat)
    ensures |"ABCDEFGHIJKLMNOPQRSTUVWXYZ"| == |"abcdefghijklmnopqrstuvwxyz"| == 26
    ensures k < 26 ==> ToLower("ABCDEFGHIJKLMNOPQRSTUVWXYZ"[k]) == "abcdefghijklmnopqrstuvwxyz"[k]
    ensures c !in "ABCDEFGHIJKLMNOPQRSTUVWXYZ" ==> ToLower(c) == c
  {
    UpperLetter(c);
    if k < 26 {
      LetterAt(k);
    }
  }

  lemma LetterAt(k: nat)
    requires k < 26
    ensures |"ABCDEFGHIJKLMNOPQRSTUVWXYZ"| == |"abcdefghijklmnopqrstuvwxyz"| == 26
    ensures "ABCDEFGHIJKLMNOPQRSTUVWXYZ"[k] as int == 'A' as int + k && "abcdefghijklmnopqrstuvwxyz"[k] as int == 'a' as int + k
  {
  }
}
