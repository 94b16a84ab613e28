/** The portable path component rule: no empty name, no trailing dot or space, none of the characters
    Windows forbids, and no DOS device name before the first dot. */
module PortablePaths {
  import opened Text

  predicate IsForbidden(c: char) {
    c in {'<', '>', ':', '\"', '|', '?', '*'}
  }

  function ToUpper(c: char): char {
    if 'a' <= c <= 'z' then (c as int - 'a' as int + 'A' as int) as char else c
  }

  function Upper(s: string): (r: string)
    ensures |r| == |s|
  {
    seq(|s|, i requires 0 <= i < |s| => ToUpper(s[i]))
  }

  /** The part before the first dot, as Windows matches device names. */
  function Stem(part: string): string {
    Upper(TrimEnd(Split(part, '.')[0]))
  }

  predicate IsDevice(stem: string) {
    || stem in {"CON", "PRN", "AUX", "NUL"}
    || (|stem| == 4 && stem[..3] in {"COM", "LPT"} && '1' <= stem[3] <= '9')
  }

  predicate PortableComponent(part: string) {
    && part != "" && part[|part| - 1] !in {'.', ' '}
    && All(part, c => !IsForbidden(c))
    && !IsDevice(Stem(part))
  }

  /** The first dot of `part` is at position `k`, or there is none and `k` is its length. */
  predicate FirstDotAt(part: string, k: nat) {
    k <= |part| && (forall i :: 0 <= i < k ==> part[i] != '.') && (k < |part| ==> part[k] == '.')
  }

  /** A name whose first dot comes at position `k` is not a device name when `k` is neither three nor four. */
  lemma NoDevice(part: string, k: nat)
    requires FirstDotAt(part, k)
    requires All(part, c => !IsWhitespace(c))
    requires k != 3 && k != 4
    ensures !IsDevice(Stem(part))
  {
    var head, rest := part[..k], part[k..];
    assert part == head + rest;
    SplitPrefix(head, rest, '.');
    assert Split(rest, '.')[0] == "";
    assert Split(part, '.')[0] == head + "" == head;
    assert TrimEnd(head) == head;
  }

  predicate Harmless(c: char) {
    !IsForbidden(c) && !IsWhitespace(c)
  }

  /** Portable, and free of white space as well. */
  predicate Plain(part: string) {
    PortableComponent(part) && All(part, Harmless)
  }

  predicate Outline(part: string) {
    part != "" && part[|part| - 1] != '.' && All(part, Harmless)
  }

  /** A harmless name is portable when its first dot comes neither third nor fourth and it does not end in one. */
  lemma PlainByStem(part: string, k: nat)
    requires FirstDotAt(part, k) && k != 3 && k != 4
    requires Outline(part)
    ensures Plain(part)
  {
    NoDevice(part, k);
  }

  predicate StartsDevice(c: char) {
    c in {'C', 'P', 'A', 'N', 'L', 'c', 'p', 'a', 'n', 'l'}
  }

  /** A harmless name is portable when no device name starts with its first letter. */
  lemma PlainByLetter(part: string)
    requires Outline(part)
    requires part[0] != '.' && !StartsDevice(part[0])
    ensures Plain(part)
  {
    var rest := part[1..];
    assert part == [part[0]] + rest;
    SplitPrefix([part[0]], rest, '.');
    var head := Split(part, '.')[0];
    assert head[0] == part[0];
    JoinSplit(part, '.');
    assert head in Split(part, '.');
    HeadIsPrefix(part);
    assert TrimEnd(head) == head;
    assert Upper(head)[0] == ToUpper(part[0]);
  }

  lemma HeadIsPrefix(part: string)
    ensures Split(part, '.')[0] <= part
  {
    JoinSplit(part, '.');
  }

  // ---- the rule, word by word ----

  predicate IsDeviceName(name: string) {
    || name in {"CON", "PRN", "AUX", "NUL"}
    || exists d :: d in "123456789" && name in {"COM" + [d], "LPT" + [d]}
  }

  /** The same letter but for its case. */
  predicate Folds(c: char, upper: char) {
    c == upper || ('a' <= c <= 'z' && c as int - 32 == upper as int)
  }

  /** What comes before the first dot is the device's name in any case, with white space after it or none. */
  predicate NamedAfter(part: string, device: string, k: nat) {
    && FirstDotAt(part, k) && |device| <= k
    && (forall i :: 0 <= i < |device| ==> Folds(part[i], device[i]))
    && (forall i :: |device| <= i < k ==> IsWhitespace(part[i]))
  }

  lemma {:induction false} FirstDot(part: string) returns (k: nat)
    ensures FirstDotAt(part, k) && Split(part, '.')[0] == part[..k]
  {
    if part == "" || part[0] == '.' {
      k := 0;
    } else {
      var rest := FirstDot(part[1..]);
      k := rest + 1;
      assert part[..k] == [part[0]] + part[1..][..rest];
      forall i | 0 <= i < k ensures part[i] != '.' {
        assert i > 0 ==> part[i] == part[1..][i - 1];
      }
      assert k < |part| ==> part[k] == part[1..][rest];
    }
  }

  /** Trimming ends at the last letter that is not white space. */
  lemma {:induction false} TrimEndIs(s: string, n: nat)
    requires n <= |s| && (n > 0 ==> !IsWhitespace(s[n - 1])) && forall i :: n <= i < |s| ==> IsWhitespace(s[i])
    ensures TrimEnd(s) == s[..n]
  {
    if n < |s| {
      assert s[..|s| - 1][..n] == s[..n];
      TrimEndIs(s[..|s| - 1], n);
    } else {
      assert s[..n] == s;
    }
  }

  lemma DeviceNameIff(stem: string)
    ensures IsDeviceName(stem) <==> IsDevice(stem)
  {
    if |stem| == 4 {
      var d := stem[3];
      assert stem == stem[..3] + [d];
      DeviceDigit(d);
    }
  }

  lemma DeviceDigit(d: char)
    ensures d in "123456789" <==> '1' <= d <= '9'
  {
    var digits := "123456789";
    assert |digits| == 9;
    if '1' <= d <= '9' {
      assert digits[d as int - '1' as int] == d;
    }
  }

  predicate Upright(device: string) {
    device != "" && forall i :: 0 <= i < |device| ==> IsDigit(device[i]) || 'A' <= device[i] <= 'Z'
  }

  lemma DotUnique(part: string, j: nat, k: nat)
    requires FirstDotAt(part, j) && FirstDotAt(part, k)
    ensures j == k
  {
  }

  lemma StemIff(part: string, device: string, k: nat)
    requires FirstDotAt(part, k) && Upright(device)
    ensures Stem(part) == device <==> NamedAfter(part, device, k)
  {
    hide IsWhitespace;
    var j := FirstDot(part);
    DotUnique(part, j, k);
    var head := part[..k];
    TrimEndTakes(head);
    var t := TrimEnd(head);
    assert forall i :: 0 <= i < |t| ==> t[i] == part[i];
    assert forall i :: 0 <= i < k ==> head[i] == part[i];
    if NamedAfter(part, device, k) {
      UprightEnds(part, device);
      TrimEndIs(head, |device|);
      assert Stem(part) == device;
    }
  }

  lemma UprightEnds(part: string, device: string)
    requires Upright(device) && |device| <= |part| && forall i :: 0 <= i < |device| ==> Folds(part[i], device[i])
    ensures !IsWhitespace(part[|device| - 1])
  {
    var c, d := part[|device| - 1], device[|device| - 1];
    assert Folds(c, d) && (IsDigit(d) || 'A' <= d <= 'Z');
  }

  lemma DevicesUpright(device: string)
    requires IsDevice(device)
    ensures Upright(device)
  {
    if |device| == 4 {
      assert device == device[..3] + [device[3]];
    }
  }

  /** A component is portable exactly when it is nonempty, does not end in a dot or a space, has none of the seven
      characters, and what comes before its first dot is none of the 22 device names, in any case and with any white
      space after it. */
  lemma PortableIff(part: string)
    ensures PortableComponent(part) <==>
      && part != "" && part[|part| - 1] != '.' && part[|part| - 1] != ' '
      && (forall c :: c in part ==> c !in "<>:\"|?*")
      && !exists device, k: nat :: IsDeviceName(device) && NamedAfter(part, device, k)
  {
    hide Stem, IsDevice, IsDeviceName, NamedAfter, FirstDotAt;
    var k := FirstDot(part);
    ForbiddenIff(part);
    forall device: string, j: nat | IsDeviceName(device) && NamedAfter(part, device, j) ensures IsDevice(Stem(part)) {
      DeviceNameIff(device);
      DevicesUpright(device);
      NamedAt(part, device, j);
      StemIff(part, device, j);
    }
    if IsDevice(Stem(part)) {
      DeviceNameIff(Stem(part));
      DevicesUpright(Stem(part));
      StemIff(part, Stem(part), k);
    }
  }

  lemma NamedAt(part: string, device: string, k: nat)
    requires NamedAfter(part, device, k)
    ensures FirstDotAt(part, k)
  {
  }

  lemma ForbiddenIff(part: string)
    ensures All(part, c => !IsForbidden(c)) <==> forall c :: c in part ==> c !in "<>:\"|?*"
  {
    forall c: char ensures c in "<>:\"|?*" <==> IsForbidden(c) {
      var seven := "<>:\"|?*";
      assert seven == ['<', '>', ':', '\"', '|', '?', '*'];
    }
    assert forall i :: 0 <= i < |part| ==> part[i] in part;
  }
}
