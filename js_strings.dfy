/** The JavaScript string semantics the userscripts rely on: the `\s` and `trim`
    whitespace set, `startsWith`/`endsWith`/`includes`/`indexOf`, `split` and `join`
    on one character, `slice`, the truncating `%`, integer-to-string conversion,
    `parseInt`, and the `$`-patterns that `String.prototype.replace` interprets in a
    replacement string. Characters are Unicode scalar values. */
module JsStrings {

  datatype Option<+T> = None | Some(value: T)

  /** The characters matched by the regex class `\s` and removed by `trim`
      (WhiteSpace and LineTerminator of ECMAScript). */
  predicate IsSpace(c: char) {
    c == ' ' || c == '\t' || c == '\n' || c == '\U{000B}' || c == '\U{000C}' || c == '\r'
    || c == '\U{00A0}' || c == '\U{1680}' || ('\U{2000}' <= c <= '\U{200A}')
    || c == '\U{2028}' || c == '\U{2029}' || c == '\U{202F}' || c == '\U{205F}'
    || c == '\U{3000}' || c == '\U{FEFF}'
  }

  /** The characters the regex `.` does not match. */
  predicate IsLineTerminator(c: char) {
    c == '\n' || c == '\r' || c == '\U{2028}' || c == '\U{2029}'
  }

  predicate IsDigit(c: char) { '0' <= c <= '9' }

  /** The regex class `\w` (no unicode flag). */
  predicate IsWordChar(c: char) {
    ('a' <= c <= 'z') || ('A' <= c <= 'Z') || IsDigit(c) || c == '_'
  }

  function LowerChar(c: char): char {
    if 'A' <= c <= 'Z' then (c as int + 32) as char else c
  }

  /** ASCII lower-casing; see README for what is not modelled beyond ASCII. */
  function Lower(s: string): (r: string)
    ensures |r| == |s|
    ensures forall k :: 0 <= k < |s| ==> r[k] == LowerChar(s[k])
  {
    if s == [] then [] else [LowerChar(s[0])] + Lower(s[1..])
  }

  /** `s` read case-insensitively (ASCII) at `i` spells the lower-case literal `lit`. */
  predicate LitAtCI(s: string, i: nat, lit: string) {
    i + |lit| <= |s| && Lower(s[i..i + |lit|]) == lit
  }

  /** Lower-casing leaves a string without upper-case ASCII letters unchanged. */
  lemma LowerNoUpper(s: string)
    requires forall k :: 0 <= k < |s| ==> !('A' <= s[k] <= 'Z')
    ensures Lower(s) == s
  {
  }

  /** `s` holds `lit` verbatim at `i`. */
  predicate LitAt(s: string, i: nat, lit: string) {
    i + |lit| <= |s| && s[i..i + |lit|] == lit
  }

  predicate StartsWith(s: string, p: string) { |p| <= |s| && s[..|p|] == p }

  predicate EndsWith(s: string, p: string) { |p| <= |s| && s[|s| - |p|..] == p }

  predicate AllSpace(s: string) { forall k :: 0 <= k < |s| ==> IsSpace(s[k]) }

  /** Index of the first character at or after `i` that is not whitespace. */
  function SkipSpaces(s: string, i: nat): (j: nat)
    requires i <= |s|
    ensures i <= j <= |s|
    ensures j == |s| || !IsSpace(s[j])
    decreases |s| - i
  {
    if i == |s| || !IsSpace(s[i]) then i else SkipSpaces(s, i + 1)
  }

  /** Everything `SkipSpaces` passes over is whitespace. */
  lemma {:induction false} SkipSpacesAll(s: string, i: nat)
    requires i <= |s|
    ensures forall k :: i <= k < SkipSpaces(s, i) ==> IsSpace(s[k])
    decreases |s| - i
  {
    if i < |s| && IsSpace(s[i]) {
      SkipSpacesAll(s, i + 1);
    }
  }

  /** Index just past the maximal run of characters satisfying `p` that starts at `i`. */
  function SkipWhile(s: string, i: nat, p: char -> bool): (j: nat)
    requires i <= |s|
    ensures i <= j <= |s|
    ensures j == |s| || !p(s[j])
    decreases |s| - i
  {
    if i == |s| || !p(s[i]) then i else SkipWhile(s, i + 1, p)
  }

  /** Everything `SkipWhile` passes over satisfies `p`. */
  lemma {:induction false} SkipWhileAll(s: string, i: nat, p: char -> bool)
    requires i <= |s|
    ensures forall k :: i <= k < SkipWhile(s, i, p) ==> p(s[k])
    decreases |s| - i
  {
    if i < |s| && p(s[i]) {
      SkipWhileAll(s, i + 1, p);
    }
  }

  /** Start of the maximal whitespace run that ends at `j` (scanning leftwards). */
  function SpacesBefore(s: string, j: nat): (i: nat)
    requires j <= |s|
    ensures i <= j
    ensures i == 0 || !IsSpace(s[i - 1])
  {
    if j == 0 || !IsSpace(s[j - 1]) then j else SpacesBefore(s, j - 1)
  }

  /** Everything `SpacesBefore` passes over is whitespace. */
  lemma {:induction false} SpacesBeforeAll(s: string, j: nat)
    requires j <= |s|
    ensures forall k :: SpacesBefore(s, j) <= k < j ==> IsSpace(s[k])
  {
    if j > 0 && IsSpace(s[j - 1]) {
      SpacesBeforeAll(s, j - 1);
    }
  }

  /** `String.prototype.trim`. */
  function Trim(s: string): (r: string)
    ensures |r| <= |s|
    ensures r == [] || (!IsSpace(r[0]) && !IsSpace(r[|r| - 1]))
  {
    var i := SkipSpaces(s, 0);
    SpacesBeforeAll(s, |s|);
    if i == |s| then [] else s[i..SpacesBefore(s, |s|)]
  }

  /** `trim` removes whitespace at both ends and nothing else. */
  lemma TrimSlice(s: string)
    ensures exists i, j :: 0 <= i <= j <= |s| && Trim(s) == s[i..j]
                           && AllSpace(s[..i]) && AllSpace(s[j..])
  {
    var i := SkipSpaces(s, 0);
    var j := SpacesBefore(s, |s|);
    SkipSpacesAll(s, 0);
    SpacesBeforeAll(s, |s|);
    if i == |s| {
      assert AllSpace(s[..0]) && AllSpace(s[0..]) by {
        assert s[0..] == s[..i];
      }
      assert s[0..0] == [];
    } else {
      assert i < j;
      assert AllSpace(s[..i]);
      assert AllSpace(s[j..]) by {
        forall k | 0 <= k < |s[j..]| ensures IsSpace(s[j..][k]) {
          assert s[j..][k] == s[j + k];
        }
      }
    }
  }

  /** A string with no whitespace at either end is its own trim. */
  lemma TrimNoop(s: string)
    requires s != [] && !IsSpace(s[0]) && !IsSpace(s[|s| - 1])
    ensures Trim(s) == s
  {
    assert SkipSpaces(s, 0) == 0;
    assert SpacesBefore(s, |s|) == |s|;
    assert s[0..|s|] == s;
  }

  /** Text appended after `a` cannot change a literal test at `i <= |a|` when its
      first character does not occur in the literal. */
  lemma LitAtPrefix(a: string, b: string, i: nat, lit: string)
    requires i <= |a| && |b| > 0 && b[0] !in lit
    ensures LitAt(a + b, i, lit) == LitAt(a, i, lit)
  {
    if i + |lit| <= |a| {
      assert (a + b)[i..i + |lit|] == a[i..i + |lit|];
    } else if i + |lit| <= |a + b| {
      assert (a + b)[i..i + |lit|][|a| - i] == b[0];
    }
  }

  /** ... nor a scan from `i <= |a|` when its first character stops the scan. */
  lemma {:induction false} SkipWhilePrefix(a: string, b: string, i: nat, p: char -> bool)
    requires i <= |a| && |b| > 0 && !p(b[0])
    ensures SkipWhile(a + b, i, p) == SkipWhile(a, i, p)
    decreases |a| - i
  {
    if i < |a| {
      assert (a + b)[i] == a[i];
      if p(a[i]) {
        SkipWhilePrefix(a, b, i + 1, p);
      }
    } else {
      assert (a + b)[i] == b[0];
    }
  }

  /** A scan over a run of `p` characters stops where the run ends. */
  lemma {:induction false} SkipSpacesRun(s: string, i: nat, j: nat)
    requires i <= j <= |s|
    requires forall k :: i <= k < j ==> IsSpace(s[k])
    requires j == |s| || !IsSpace(s[j])
    ensures SkipSpaces(s, i) == j
    decreases j - i
  {
    if i < j {
      SkipSpacesRun(s, i + 1, j);
    }
  }

  lemma {:induction false} SkipWhileRun(s: string, i: nat, j: nat, p: char -> bool)
    requires i <= j <= |s|
    requires forall k :: i <= k < j ==> p(s[k])
    requires j == |s| || !p(s[j])
    ensures SkipWhile(s, i, p) == j
    decreases j - i
  {
    if i < j {
      SkipWhileRun(s, i + 1, j, p);
    }
  }

  /** A literal placed between two strings is found where it was placed. */
  lemma LitAtMiddle(a: string, lit: string, b: string)
    ensures LitAt(a + lit + b, |a|, lit)
  {
    assert (a + lit + b)[|a|..|a| + |lit|] == lit;
  }

  function IndexOfFrom(s: string, p: string, from: nat): (r: Option<nat>)
    ensures r.Some? ==> from <= r.value && LitAt(s, r.value, p)
    decreases |s| - from
  {
    if from + |p| > |s| then None
    else if s[from..from + |p|] == p then Some(from)
    else IndexOfFrom(s, p, from + 1)
  }

  /** The occurrence found is the first one; when none is found there is none. */
  lemma {:induction false} IndexOfFromFirst(s: string, p: string, from: nat)
    ensures var r := IndexOfFrom(s, p, from);
            r.Some? ==> forall k :: from <= k < r.value ==> !LitAt(s, k, p)
    ensures IndexOfFrom(s, p, from).None? ==> forall k :: from <= k ==> !LitAt(s, k, p)
    decreases |s| - from
  {
    if from + |p| <= |s| && s[from..from + |p|] != p {
      IndexOfFromFirst(s, p, from + 1);
    }
  }

  /** `String.prototype.indexOf`, with `None` for -1. */
  function IndexOf(s: string, p: string): Option<nat> { IndexOfFrom(s, p, 0) }

  /** `String.prototype.includes`. */
  predicate Contains(s: string, p: string) { IndexOf(s, p).Some? }

  lemma ContainsAt(s: string, p: string, k: nat)
    requires LitAt(s, k, p)
    ensures Contains(s, p)
  {
    IndexOfFromFirst(s, p, 0);
  }

  lemma ContainsSuffix(a: string, p: string)
    ensures Contains(a + p, p)
  {
    assert (a + p)[|a|..|a| + |p|] == p;
    ContainsAt(a + p, p, |a|);
  }

  lemma ContainsMiddle(a: string, p: string, b: string)
    ensures Contains(a + p + b, p)
  {
    LitAtMiddle(a, p, b);
    ContainsAt(a + p + b, p, |a|);
  }

  /** `s.replace(p, r)` for a string pattern when the replacement is inserted
      literally (a replacement without `$`, or a replacer function). */
  function ReplaceFirst(s: string, p: string, r: string): (t: string)
    ensures IndexOf(s, p).None? ==> t == s
    ensures IndexOf(s, p).Some? ==>
              var k := IndexOf(s, p).value; t == s[..k] + r + s[k + |p|..]
  {
    match IndexOf(s, p)
    case None => s
    case Some(k) => s[..k] + r + s[k + |p|..]
  }

  /** `s.split(c)` for a one-character separator. */
  function Split(s: string, c: char): (parts: seq<string>)
    ensures |parts| >= 1
    ensures forall i :: 0 <= i < |parts| ==> c !in parts[i]
    decreases |s|
  {
    IndexOfFromFirst(s, [c], 0);
    match IndexOf(s, [c])
    case None =>
      assert c !in s by {
        forall k | 0 <= k < |s| ensures s[k] != c {
          assert !LitAt(s, k, [c]);
          assert s[k..k + 1] == [s[k]];
        }
      }
      [s]
    case Some(k) =>
      assert c !in s[..k] by {
        forall m | 0 <= m < k ensures s[m] != c {
          assert !LitAt(s, m, [c]);
          assert s[m..m + 1] == [s[m]];
        }
      }
      [s[..k]] + Split(s[k + 1..], c)
  }

  /** `parts.join(sep)`. */
  function Join(parts: seq<string>, sep: string): string {
    if parts == [] then []
    else if |parts| == 1 then parts[0]
    else parts[0] + sep + Join(parts[1..], sep)
  }

  /** Every occurrence of `a` replaced by `b`. */
  function ReplaceAllChar(s: string, a: char, b: char): (r: string)
    ensures |r| == |s|
    ensures forall k :: 0 <= k < |s| ==> r[k] == (if s[k] == a then b else s[k])
  {
    if s == [] then [] else [if s[0] == a then b else s[0]] + ReplaceAllChar(s[1..], a, b)
  }

  /** Splitting on a character and joining with it gives the string back. */
  lemma {:induction false} JoinSplit(s: string, c: char)
    ensures Join(Split(s, c), [c]) == s
    decreases |s|
  {
    match IndexOf(s, [c])
    case None =>
    case Some(k) =>
      var rest := s[k + 1..];
      JoinSplit(rest, c);
      assert s[k..k + 1] == [c];
      assert s == s[..k] + [c] + rest;
  }

  /** Joining parts that do not contain `c` with `c` and splitting on it gives
      the parts back. */
  lemma {:induction false} SplitOfJoin(parts: seq<string>, c: char)
    requires |parts| > 0 && forall i :: 0 <= i < |parts| ==> c !in parts[i]
    ensures Split(Join(parts, [c]), c) == parts
    decreases |parts|
  {
    var s := Join(parts, [c]);
    FirstCharIndex(s, c);
    if |parts| > 1 {
      var p := parts[0];
      var rest := Join(parts[1..], [c]);
      assert s == p + [c] + rest;
      assert s[|p|] == c;
      assert s[..|p|] == p;
      assert s[|p| + 1..] == rest;
      SplitOfJoin(parts[1..], c);
      assert parts == [p] + parts[1..];
    }
  }

  /** `s.split(a).join(b)` replaces every `a` by `b`. */
  lemma {:induction false} SplitJoinReplaces(s: string, a: char, b: char)
    ensures Join(Split(s, a), [b]) == ReplaceAllChar(s, a, b)
    decreases |s|
  {
    FirstCharIndex(s, a);
    match IndexOf(s, [a])
    case None =>
      assert ReplaceAllChar(s, a, b) == s;
    case Some(k) =>
      var rest := s[k + 1..];
      SplitJoinReplaces(rest, a, b);
      assert s[k..k + 1] == [a];
      ReplaceAllCharSplit(s, k, a, b);
      assert ReplaceAllChar(s[..k], a, b) == s[..k];
  }

  lemma FirstCharIndex(s: string, c: char)
    ensures IndexOf(s, [c]).None? ==> c !in s
    ensures IndexOf(s, [c]).Some? ==> var k := IndexOf(s, [c]).value;
              k < |s| && s[k] == c && c !in s[..k]
  {
    IndexOfFromFirst(s, [c], 0);
    forall m | 0 <= m < |s| && !LitAt(s, m, [c]) ensures s[m] != c {
      assert s[m..m + 1] == [s[m]];
    }
    if IndexOf(s, [c]).Some? {
      var k := IndexOf(s, [c]).value;
      assert s[k..k + 1] == [c];
    }
  }

  /** Position of the first `c` in `s`, or `|s|` when there is none. */
  function CharIndex(s: string, c: char): (k: nat)
    ensures k <= |s| && c !in s[..k]
    ensures k < |s| ==> s[k] == c
    ensures k == |s| <==> c !in s
  {
    FirstCharIndex(s, c);
    match IndexOf(s, [c])
    case None => |s|
    case Some(k) => k
  }

  /** The first part of `s.split(c)` is the text before the first `c`. */
  lemma SplitHead(s: string, c: char)
    ensures Split(s, c)[0] == s[..CharIndex(s, c)]
  {
    FirstCharIndex(s, c);
  }

  lemma ReplaceAllCharSplit(s: string, k: nat, a: char, b: char)
    requires k < |s| && s[k] == a
    ensures ReplaceAllChar(s, a, b) == ReplaceAllChar(s[..k], a, b) + [b] + ReplaceAllChar(s[k + 1..], a, b)
  {
    var l, r := ReplaceAllChar(s[..k], a, b), ReplaceAllChar(s[k + 1..], a, b);
    assert |l + [b] + r| == |s|;
    forall m | 0 <= m < |s| ensures (l + [b] + r)[m] == ReplaceAllChar(s, a, b)[m] {
      if m < k { assert (l + [b] + r)[m] == l[m]; }
      else if m > k { assert (l + [b] + r)[m] == r[m - k - 1]; }
    }
  }

  /** `str.slice(a, b)` for integer arguments (negative ones count from the end). */
  function Slice(s: string, a: int, b: int): (r: string)
    ensures var from := if a < 0 then (if |s| + a < 0 then 0 else |s| + a) else (if a > |s| then |s| else a);
            var to := if b < 0 then (if |s| + b < 0 then 0 else |s| + b) else (if b > |s| then |s| else b);
            r == if from >= to then [] else s[from..to]
  {
    var from := if a < 0 then (if |s| + a < 0 then 0 else |s| + a) else (if a > |s| then |s| else a);
    var to := if b < 0 then (if |s| + b < 0 then 0 else |s| + b) else (if b > |s| then |s| else b);
    if from >= to then [] else s[from..to]
  }

  /** Adjacent slices join up. */
  lemma SliceSplit(s: string, a: int, b: int, c: int)
    requires 0 <= a <= b <= c
    ensures Slice(s, a, b) + Slice(s, b, c) == Slice(s, a, c)
  {
    var a' := if a > |s| then |s| else a;
    var b' := if b > |s| then |s| else b;
    var c' := if c > |s| then |s| else c;
    assert a' <= b' <= c';
    if a' < b' && b' < c' {
      assert s[a'..b'] + s[b'..c'] == s[a'..c'];
    }
  }

  /** JavaScript's `%`: the remainder takes the sign of the dividend. */
  function JsRem(a: int, b: int): (r: int)
    requires b != 0
    ensures (if b < 0 then -b else b) > (if r < 0 then -r else r)
    ensures a >= 0 ==> r >= 0
    ensures a < 0 ==> r <= 0
  {
    var m := if b < 0 then -b else b;
    if a >= 0 then a % m else -((-a) % m)
  }

  function DigitChar(d: nat): char
    requires d < 10
  {
    ['0','1','2','3','4','5','6','7','8','9'][d]
  }

  /** Decimal digits of a natural number, without leading zeros. */
  function NatToString(n: nat): (r: string)
    ensures |r| >= 1 && (forall k :: 0 <= k < |r| ==> IsDigit(r[k]))
    ensures |r| > 1 ==> r[0] != '0'
    ensures DigitsValue(r) == n
  {
    if n < 10 then [DigitChar(n)]
    else
      var r := NatToString(n / 10) + [DigitChar(n % 10)];
      DigitsValueSnoc(NatToString(n / 10), DigitChar(n % 10));
      r
  }

  /** `String(n)` for an integer-valued number. */
  function IntToString(n: int): (r: string)
    ensures n >= 0 ==> r == NatToString(n)
    ensures n < 0 ==> r == "-" + NatToString(-n)
  {
    if n >= 0 then NatToString(n) else "-" + NatToString(-n)
  }

  function DigitValue(c: char): nat { if IsDigit(c) then c as int - '0' as int else 0 }

  /** Value of a string read as decimal digits. */
  function DigitsValue(s: string): nat {
    if s == [] then 0 else DigitsValue(s[..|s| - 1]) * 10 + DigitValue(s[|s| - 1])
  }

  lemma DigitsValueSnoc(s: string, c: char)
    ensures DigitsValue(s + [c]) == DigitsValue(s) * 10 + DigitValue(c)
  {
    assert (s + [c])[..|s + [c]| - 1] == s;
  }

  predicate IsHexDigit(c: char) { IsDigit(c) || ('a' <= c <= 'f') || ('A' <= c <= 'F') }

  function HexValue(c: char): nat {
    if IsDigit(c) then DigitValue(c)
    else if 'a' <= c <= 'f' then c as int - 'a' as int + 10
    else if 'A' <= c <= 'F' then c as int - 'A' as int + 10
    else 0
  }

  function HexDigitsValue(s: string): nat {
    if s == [] then 0 else HexDigitsValue(s[..|s| - 1]) * 16 + HexValue(s[|s| - 1])
  }

  /** `parseInt(s)` without a radix: leading whitespace, an optional sign, an optional
      `0x` prefix selecting base 16, then the longest run of digits; `None` is `NaN`. */
  function ParseInt(s: string): (r: Option<int>)
  {
    var i := SkipSpaces(s, 0);
    var neg := i < |s| && s[i] == '-';
    var j := if i < |s| && (s[i] == '-' || s[i] == '+') then i + 1 else i;
    var hex := j + 1 < |s| && s[j] == '0' && (s[j + 1] == 'x' || s[j + 1] == 'X');
    var d := if hex then j + 2 else j;
    var e := if hex then SkipWhile(s, d, IsHexDigit) else SkipWhile(s, d, IsDigit);
    if e == d then None
    else
      var v := if hex then HexDigitsValue(s[d..e]) else DigitsValue(s[d..e]);
      Some(if neg then -v else v)
  }

  lemma ParseIntOfNat(n: nat)
    ensures ParseInt(NatToString(n)) == Some(n)
  {
    var s := NatToString(n);
    assert SkipSpaces(s, 0) == 0;
    assert SkipWhile(s, 0, IsDigit) == |s|;
    assert s[0..|s|] == s;
  }

  /** `parseInt` reads back an explicitly signed decimal. */
  lemma ParseIntOfSigned(sign: char, n: nat, s: string)
    requires sign == '+' || sign == '-'
    requires s == [sign] + NatToString(n)
    ensures ParseInt(s) == Some(if sign == '-' then -(n as int) else n as int)
  {
    var d := NatToString(n);
    assert SkipSpaces(s, 0) == 0;
    assert forall k :: 1 <= k < |s| ==> s[k] == d[k - 1] && IsDigit(s[k]);
    assert !(2 < |s| && (s[2] == 'x' || s[2] == 'X'));
    SkipWhileRun(s, 1, |s|, IsDigit);
    assert s[1..|s|] == d;
  }

  /** `GetSubstitution` of ECMAScript: the replacement text that `replace` inserts for
      a match `matched` preceded by `before` and followed by `after`, with the given
      capture groups, when the replacement string is `template`. */
  function Substitute(template: string, matched: string, before: string, after: string,
                      captures: seq<string>): string
    decreases |template|
  {
    if |template| == 0 then []
    else if template[0] != '$' || |template| == 1 then
      [template[0]] + Substitute(template[1..], matched, before, after, captures)
    else
      var c := template[1];
      if c == '$' then "$" + Substitute(template[2..], matched, before, after, captures)
      else if c == '&' then matched + Substitute(template[2..], matched, before, after, captures)
      else if c == '`' then before + Substitute(template[2..], matched, before, after, captures)
      else if c == '\'' then after + Substitute(template[2..], matched, before, after, captures)
      else if IsDigit(c) then
        var two := |template| > 2 && IsDigit(template[2])
                   && 1 <= DigitValue(c) * 10 + DigitValue(template[2]) <= |captures|;
        var twoLiteralRef := |template| > 2 && IsDigit(template[2])
                   && DigitValue(c) * 10 + DigitValue(template[2]) == 0;
        if two then
          captures[DigitValue(c) * 10 + DigitValue(template[2]) - 1]
          + Substitute(template[3..], matched, before, after, captures)
        else if twoLiteralRef then
          template[..3] + Substitute(template[3..], matched, before, after, captures)
        else if 1 <= DigitValue(c) <= |captures| then
          captures[DigitValue(c) - 1] + Substitute(template[2..], matched, before, after, captures)
        else
          template[..2] + Substitute(template[2..], matched, before, after, captures)
      else
        "$" + Substitute(template[1..], matched, before, after, captures)
  }

  /** A replacement string with no `$` is inserted literally. */
  lemma {:induction false} SubstituteLiteral(template: string, matched: string, before: string,
                                            after: string, captures: seq<string>)
    requires '$' !in template
    ensures Substitute(template, matched, before, after, captures) == template
    decreases |template|
  {
    if template != [] {
      SubstituteLiteral(template[1..], matched, before, after, captures);
    }
  }

  /** A `$`-free head of a replacement string is copied as it stands. */
  lemma {:induction false} SubstituteLiteralHead(head: string, tail: string, matched: string,
                                                before: string, after: string, captures: seq<string>)
    requires '$' !in head
    ensures Substitute(head + tail, matched, before, after, captures)
            == head + Substitute(tail, matched, before, after, captures)
    decreases |head|
  {
    if head != [] {
      assert head[0] in head;
      assert (head + tail)[0] == head[0];
      assert (head + tail)[1..] == head[1..] + tail;
      assert head == [head[0]] + head[1..];
      SubstituteLiteralHead(head[1..], tail, matched, before, after, captures);
    } else {
      assert head + tail == tail;
    }
  }

  /** `$1` stands for the first capture group. */
  lemma SubstituteFirstCapture(matched: string, before: string, after: string, group: string)
    ensures Substitute("$1", matched, before, after, [group]) == group
  {
    assert "$1"[2..] == [];
  }

  /** `$$` stands for one `$`. */
  lemma SubstituteDollarDollar(tail: string, matched: string, before: string, after: string,
                               captures: seq<string>)
    ensures Substitute("$$" + tail, matched, before, after, captures)
            == "$" + Substitute(tail, matched, before, after, captures)
  {
    assert ("$$" + tail)[2..] == tail;
  }

  /** A `$`-free text followed by `$1` gives the text and then the first group. */
  lemma SubstituteHeadThenCapture(head: string, matched: string, before: string, after: string,
                                  group: string)
    requires '$' !in head
    ensures Substitute(head + "$1", matched, before, after, [group]) == head + group
  {
    SubstituteLiteralHead(head, "$1", matched, before, after, [group]);
    SubstituteFirstCapture(matched, before, after, group);
  }

  /** `s.replace(p, template)` for a string pattern, as JavaScript evaluates it:
      the replacement string goes through `Substitute` with no capture groups. */
  function ReplaceFirstJs(s: string, p: string, template: string): (t: string)
    ensures IndexOf(s, p).None? ==> t == s
  {
    match IndexOf(s, p)
    case None => s
    case Some(k) => s[..k] + Substitute(template, p, s[..k], s[k + |p|..], []) + s[k + |p|..]
  }
}
