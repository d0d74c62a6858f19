/** The JavaScript string primitives the generator is built from:
    `String.prototype.split` with a one-character separator, `Array.prototype.join`,
    `String.prototype.trim`, `toLowerCase` on ASCII letters, decimal numerals,
    and the split / trim / drop-empty pipeline that both input parsers share. */
module Text {

  // ---------------------------------------------------------------------------
  // Whitespace and trim
  // ---------------------------------------------------------------------------

  /** The WhiteSpace and LineTerminator code points of ECMA-262 (sections 12.2
      and 12.3): the characters `trim` removes and `parseInt` skips. */
  predicate IsJsWhitespace(c: char) {
    var u := c as int;
    u == 0x09 || u == 0x0A || u == 0x0B || u == 0x0C || u == 0x0D || u == 0x20 || u == 0xA0
    || u == 0x1680 || (0x2000 <= u <= 0x200A) || u == 0x2028 || u == 0x2029
    || u == 0x202F || u == 0x205F || u == 0x3000 || u == 0xFEFF
  }

  predicate AllWhitespace(s: string) {
    forall i :: 0 <= i < |s| ==> IsJsWhitespace(s[i])
  }

  /** Length of the run of whitespace at the front of `s`. */
  function LeadingWhitespace(s: string): (k: nat)
    ensures k <= |s|
    ensures forall i :: 0 <= i < k ==> IsJsWhitespace(s[i])
    ensures k < |s| ==> !IsJsWhitespace(s[k])
  {
    if |s| > 0 && IsJsWhitespace(s[0]) then 1 + LeadingWhitespace(s[1..]) else 0
  }

  /** Length of the run of whitespace at the back of `s`. */
  function TrailingWhitespace(s: string): (k: nat)
    ensures k <= |s|
    ensures forall i :: |s| - k <= i < |s| ==> IsJsWhitespace(s[i])
    ensures k < |s| ==> !IsJsWhitespace(s[|s| - 1 - k])
  {
    if |s| > 0 && IsJsWhitespace(s[|s| - 1]) then 1 + TrailingWhitespace(s[..|s| - 1]) else 0
  }

  /** `s.trim()`: `s` without its leading and trailing whitespace. */
  function Trim(s: string): (r: string)
    ensures |r| <= |s|
    ensures r == [] <==> AllWhitespace(s)
    ensures r != [] ==> !IsJsWhitespace(r[0]) && !IsJsWhitespace(r[|r| - 1])
    ensures LeadingWhitespace(s) + |r| <= |s|
    ensures r == s[LeadingWhitespace(s)..LeadingWhitespace(s) + |r|]
    ensures AllWhitespace(s[LeadingWhitespace(s) + |r|..])
  {
    var rest := s[LeadingWhitespace(s)..];
    rest[..|rest| - TrailingWhitespace(rest)]
  }

  /** Trim is determined by what it keeps: padding `x` with whitespace on both
      sides and trimming gives `x` back whenever `x` has no whitespace at its ends. */
  lemma {:induction false} TrimPadded(pre: string, x: string, suf: string)
    requires AllWhitespace(pre) && AllWhitespace(suf)
    requires x != [] ==> !IsJsWhitespace(x[0]) && !IsJsWhitespace(x[|x| - 1])
    ensures Trim(pre + x + suf) == x
  {
    var s := pre + x + suf;
    if x == [] {
      assert AllWhitespace(s) by {
        forall i | 0 <= i < |s| ensures IsJsWhitespace(s[i]) {
          if i < |pre| { assert s[i] == pre[i]; } else { assert s[i] == suf[i - |pre|]; }
        }
      }
    } else {
      LeadingOfPadded(pre, x + suf);
      assert s == pre + (x + suf);
      assert s[|pre|..] == x + suf;
      TrailingOfPadded(x, suf);
    }
  }

  lemma {:induction false} LeadingOfPadded(pre: string, y: string)
    requires AllWhitespace(pre)
    requires y != [] ==> !IsJsWhitespace(y[0])
    ensures LeadingWhitespace(pre + y) == |pre|
  {
    if pre != [] {
      assert (pre + y)[1..] == pre[1..] + y;
      LeadingOfPadded(pre[1..], y);
    }
  }

  lemma {:induction false} TrailingOfPadded(y: string, suf: string)
    requires AllWhitespace(suf)
    requires y != [] ==> !IsJsWhitespace(y[|y| - 1])
    ensures TrailingWhitespace(y + suf) == |suf|
  {
    if suf != [] {
      assert (y + suf)[..|y + suf| - 1] == y + suf[..|suf| - 1];
      TrailingOfPadded(y, suf[..|suf| - 1]);
    }
  }

  /** A string without whitespace at either end is its own trim. */
  lemma TrimUnpadded(x: string)
    requires x != [] ==> !IsJsWhitespace(x[0]) && !IsJsWhitespace(x[|x| - 1])
    ensures Trim(x) == x
  {
    assert [] + x + [] == x;
    TrimPadded([], x, []);
  }

  lemma TrimIdempotent(s: string)
    ensures Trim(Trim(s)) == Trim(s)
  {
    TrimUnpadded(Trim(s));
  }

  // ---------------------------------------------------------------------------
  // split and join
  // ---------------------------------------------------------------------------

  /** `s.split(sep)` for a one-character separator: the maximal pieces between
      separators, including empty ones; `"".split(sep)` is `[""]`. */
  function Split(s: string, sep: char): (parts: seq<string>)
    ensures |parts| >= 1
    ensures forall p :: p in parts ==> sep !in p
  {
    if s == [] then [""]
    else
      var rest := Split(s[1..], sep);
      if s[0] == sep then [""] + rest else [[s[0]] + rest[0]] + rest[1..]
  }

  /** `parts.join(sep)`. */
  function Join(parts: seq<string>, sep: string): string {
    if |parts| == 0 then ""
    else if |parts| == 1 then parts[0]
    else parts[0] + sep + Join(parts[1..], sep)
  }

  lemma JoinCons(x: string, t: seq<string>, sep: string)
    ensures Join([x] + t, sep) == x + (if t == [] then "" else sep + Join(t, sep))
  {
    assert ([x] + t)[1..] == t;
  }

  /** Joining the pieces of a split with the separator rebuilds the string. */
  lemma {:induction false} JoinSplit(s: string, sep: char)
    ensures Join(Split(s, sep), [sep]) == s
  {
    if s != [] {
      var rest := Split(s[1..], sep);
      JoinSplit(s[1..], sep);
      if s[0] == sep {
        JoinCons("", rest, [sep]);
      } else {
        JoinCons([s[0]] + rest[0], rest[1..], [sep]);
        assert rest == [rest[0]] + rest[1..];
        JoinCons(rest[0], rest[1..], [sep]);
      }
      assert s == [s[0]] + s[1..];
    }
  }

  lemma {:induction false} SplitNoSeparator(x: string, sep: char)
    requires sep !in x
    ensures Split(x, sep) == [x]
  {
    if x != [] {
      assert x[0] in x;
      assert forall c :: c in x[1..] ==> c in x;
      SplitNoSeparator(x[1..], sep);
      assert x == [x[0]] + x[1..];
    }
  }

  lemma {:induction false} SplitCons(x: string, y: string, sep: char)
    requires sep !in x
    ensures Split(x + [sep] + y, sep) == [x] + Split(y, sep)
  {
    var s := x + [sep] + y;
    if x == [] {
      assert s[1..] == y;
    } else {
      assert x[0] in x;
      assert forall c :: c in x[1..] ==> c in x;
      assert s[1..] == x[1..] + [sep] + y;
      SplitCons(x[1..], y, sep);
      assert x == [x[0]] + x[1..];
    }
  }

  /** Splitting a join recovers the pieces when no piece holds the separator. */
  lemma {:induction false} SplitJoin(parts: seq<string>, sep: char)
    requires |parts| >= 1
    requires forall p :: p in parts ==> sep !in p
    ensures Split(Join(parts, [sep]), sep) == parts
  {
    if |parts| == 1 {
      SplitNoSeparator(parts[0], sep);
    } else {
      assert parts[0] in parts;
      assert forall p :: p in parts[1..] ==> p in parts;
      SplitJoin(parts[1..], sep);
      SplitCons(parts[0], Join(parts[1..], [sep]), sep);
      assert parts == [parts[0]] + parts[1..];
    }
  }

  /** Every piece of a blank string is blank. */
  lemma {:induction false} SplitBlank(s: string, sep: char)
    requires AllWhitespace(s)
    ensures forall p :: p in Split(s, sep) ==> AllWhitespace(p)
  {
    if s != [] {
      assert AllWhitespace(s[1..]) by {
        forall i | 0 <= i < |s| - 1 ensures IsJsWhitespace(s[1..][i]) {
          assert s[1..][i] == s[i + 1];
        }
      }
      SplitBlank(s[1..], sep);
      var rest := Split(s[1..], sep);
      if s[0] != sep {
        var h := [s[0]] + rest[0];
        assert rest[0] in rest;
        assert AllWhitespace(h) by {
          forall i | 0 <= i < |h| ensures IsJsWhitespace(h[i]) {
            if i > 0 { assert h[i] == rest[0][i - 1]; }
          }
        }
        assert forall p :: p in rest[1..] ==> p in rest;
      }
    }
  }

  // ---------------------------------------------------------------------------
  // The split / trim / drop-empty pipeline
  // ---------------------------------------------------------------------------

  /** `segments.map(s => s.trim()).filter(s => s !== '')`. */
  function NonEmptyTrimmed(segments: seq<string>): (r: seq<string>)
    ensures |r| <= |segments|
    ensures forall t :: t in r ==> t != "" && Trim(t) == t
  {
    if segments == [] then []
    else
      var t := Trim(segments[0]);
      TrimIdempotent(segments[0]);
      (if t == "" then [] else [t]) + NonEmptyTrimmed(segments[1..])
  }

  /** `s.split(sep).map(t => t.trim()).filter(t => t !== '')`: the trimmed,
      non-empty pieces of `s`, in input order. */
  function Tokens(s: string, sep: char): (r: seq<string>)
    ensures forall t :: t in r ==> t != "" && Trim(t) == t
  {
    NonEmptyTrimmed(Split(s, sep))
  }

  lemma NonEmptyTrimmedKeeps(xs: seq<string>)
    requires forall x :: x in xs ==> x != "" && Trim(x) == x
    ensures NonEmptyTrimmed(xs) == xs
  {
    forall i | 0 <= i < |xs| ensures xs[i] != "" && Trim(xs[i]) == xs[i] {
      assert xs[i] in xs;
    }
    NonEmptyTrimmedEach(xs, xs);
  }

  lemma {:induction false} NonEmptyTrimmedBlank(xs: seq<string>)
    requires forall x :: x in xs ==> AllWhitespace(x)
    ensures NonEmptyTrimmed(xs) == []
  {
    if xs != [] {
      assert xs[0] in xs;
      assert forall x :: x in xs[1..] ==> x in xs;
      NonEmptyTrimmedBlank(xs[1..]);
    }
  }

  /** Tokens inverts Join: a list of already-trimmed, non-empty pieces without
      the separator is recovered from its join. */
  lemma TokensJoin(xs: seq<string>, sep: char)
    requires forall x :: x in xs ==> x != "" && Trim(x) == x && sep !in x
    ensures Tokens(Join(xs, [sep]), sep) == xs
  {
    if xs == [] {
      assert Split("", sep) == [""];
      assert NonEmptyTrimmed([""]) == NonEmptyTrimmed([]) by {
        assert [""][1..] == [];
      }
    } else {
      SplitJoin(xs, sep);
      NonEmptyTrimmedKeeps(xs);
    }
  }

  /** A blank (or empty) input has no tokens. */
  lemma TokensBlank(s: string, sep: char)
    requires AllWhitespace(s)
    ensures Tokens(s, sep) == []
  {
    SplitBlank(s, sep);
    NonEmptyTrimmedBlank(Split(s, sep));
  }

  lemma NonEmptyTrimmedCons(x: string, rest: seq<string>)
    ensures NonEmptyTrimmed([x] + rest) == (if Trim(x) == "" then [] else [Trim(x)]) + NonEmptyTrimmed(rest)
  {
    assert ([x] + rest)[1..] == rest;
  }

  // ---------------------------------------------------------------------------
  // Joins with an indented separator
  // ---------------------------------------------------------------------------

  /** Joining one more part appends the separator and that part. */
  lemma {:induction false} JoinSnoc(xs: seq<string>, y: string, sep: string)
    requires xs != []
    ensures Join(xs + [y], sep) == Join(xs, sep) + sep + y
  {
    if |xs| == 1 {
      assert (xs + [y])[1..] == [y];
    } else {
      assert (xs + [y])[1..] == xs[1..] + [y];
      JoinSnoc(xs[1..], y, sep);
    }
  }

  /** `x` occurs in `s` as a contiguous piece. */
  predicate Occurs(x: string, s: string) {
    exists k :: 0 <= k <= |s| && x <= s[k..]
  }

  lemma OccursInFront(x: string, s: string)
    ensures Occurs(x, x + s)
  {
    assert (x + s)[0..] == x + s;
  }

  lemma OccursWithin(x: string, a: string, s: string, b: string)
    requires Occurs(x, s)
    ensures Occurs(x, a + s + b)
  {
    var k :| 0 <= k <= |s| && x <= s[k..];
    assert (a + s + b)[|a| + k..] == s[k..] + b;
  }

  lemma OccursTransitive(x: string, y: string, z: string)
    requires Occurs(x, y) && Occurs(y, z)
    ensures Occurs(x, z)
  {
    var k :| 0 <= k <= |y| && x <= y[k..];
    var j :| 0 <= j <= |z| && y <= z[j..];
    assert x <= z[j + k..] by {
      forall i | 0 <= i < |x| ensures x[i] == z[j + k..][i] {
        assert x[i] == y[k..][i] == y[k + i];
        assert y[k + i] == z[j..][k + i];
      }
    }
  }

  /** The parts written one after the other. */
  function Concat(parts: seq<string>): string {
    if parts == [] then "" else parts[0] + Concat(parts[1..])
  }

  /** Every part of a concatenation occurs in it. */
  lemma {:induction false} ConcatHasPart(parts: seq<string>, i: nat)
    requires i < |parts|
    ensures Occurs(parts[i], Concat(parts))
  {
    if i == 0 {
      OccursInFront(parts[0], Concat(parts[1..]));
    } else {
      ConcatHasPart(parts[1..], i - 1);
      OccursWithin(parts[i], parts[0], Concat(parts[1..]), "");
      assert parts[0] + Concat(parts[1..]) + "" == Concat(parts);
    }
  }

  /** Every part of a join occurs in it. */
  lemma {:induction false} JoinHasPart(xs: seq<string>, sep: string, i: nat)
    requires i < |xs|
    ensures Occurs(xs[i], Join(xs, sep))
  {
    if |xs| == 1 {
      OccursInFront(xs[0], "");
      assert xs[0] + "" == xs[0];
    } else if i == 0 {
      OccursInFront(xs[0], sep + Join(xs[1..], sep));
      assert Join(xs, sep) == xs[0] + (sep + Join(xs[1..], sep));
    } else {
      JoinHasPart(xs[1..], sep, i - 1);
      OccursWithin(xs[i], xs[0] + sep, Join(xs[1..], sep), "");
      assert Join(xs, sep) == xs[0] + sep + Join(xs[1..], sep) + "";
    }
  }

  /** Every part, preceded by `pad`. */
  function PrefixAll(xs: seq<string>, pad: string): (ys: seq<string>)
    ensures |ys| == |xs|
  {
    seq(|xs|, i requires 0 <= i < |xs| => pad + xs[i])
  }

  /** A separator followed by padding moves the padding into the parts. */
  lemma {:induction false} JoinPrefixed(xs: seq<string>, sep: char, pad: string)
    requires xs != []
    ensures pad + Join(xs, [sep] + pad) == Join(PrefixAll(xs, pad), [sep])
  {
    if |xs| > 1 {
      JoinPrefixed(xs[1..], sep, pad);
      assert PrefixAll(xs, pad)[1..] == PrefixAll(xs[1..], pad);
    }
  }

  /** Blank padding in front of a trimmed token is trimmed away. */
  lemma TrimPrefixed(pad: string, x: string)
    requires AllWhitespace(pad) && Trim(x) == x
    ensures Trim(pad + x) == x
  {
    assert pad + x + [] == pad + x;
    TrimPadded(pad, x, []);
  }

  /** When every segment trims to the matching non-empty token, the pipeline
      yields exactly those tokens. */
  lemma {:induction false} NonEmptyTrimmedEach(ys: seq<string>, xs: seq<string>)
    requires |ys| == |xs|
    requires forall i :: 0 <= i < |xs| ==> xs[i] != "" && Trim(ys[i]) == xs[i]
    ensures NonEmptyTrimmed(ys) == xs
  {
    if xs != [] {
      assert forall i :: 0 <= i < |xs| - 1 ==> xs[1..][i] == xs[i + 1] && ys[1..][i] == ys[i + 1];
      NonEmptyTrimmedEach(ys[1..], xs[1..]);
      assert Trim(ys[0]) == xs[0] != "";
      assert NonEmptyTrimmed(ys) == [xs[0]] + NonEmptyTrimmed(ys[1..]);
      assert xs == [xs[0]] + xs[1..];
    }
  }

  lemma NonEmptyTrimmedPrefixed(xs: seq<string>, pad: string)
    requires AllWhitespace(pad)
    requires forall x :: x in xs ==> x != "" && Trim(x) == x
    ensures NonEmptyTrimmed(PrefixAll(xs, pad)) == xs
  {
    forall i | 0 <= i < |xs| ensures xs[i] != "" && Trim(PrefixAll(xs, pad)[i]) == xs[i] {
      assert xs[i] in xs;
      TrimPrefixed(pad, xs[i]);
    }
    NonEmptyTrimmedEach(PrefixAll(xs, pad), xs);
  }

  lemma PrefixAllHasNoSeparator(xs: seq<string>, sep: char, pad: string)
    requires sep !in pad && forall x :: x in xs ==> sep !in x
    ensures forall y :: y in PrefixAll(xs, pad) ==> sep !in y
  {
    forall y | y in PrefixAll(xs, pad) ensures sep !in y {
      var i :| 0 <= i < |xs| && PrefixAll(xs, pad)[i] == y;
      assert xs[i] in xs;
    }
  }

  /** A join with a padded separator is a plain join of the padded parts. */
  lemma PaddedJoinAsPlainJoin(xs: seq<string>, sep: char, pad: string)
    requires |xs| > 1
    ensures Join(xs, [sep] + pad) == Join([xs[0]] + PrefixAll(xs[1..], pad), [sep])
  {
    var t := PrefixAll(xs[1..], pad);
    JoinPrefixed(xs[1..], sep, pad);
    JoinCons(xs[0], t, [sep]);
  }

  /** Tokens inverts a join whose separator is `sep` followed by blank padding,
      as in `join(',\n    ')`. */
  lemma TokensPaddedJoin(xs: seq<string>, sep: char, pad: string)
    requires AllWhitespace(pad) && sep !in pad
    requires forall x :: x in xs ==> x != "" && Trim(x) == x && sep !in x
    ensures Tokens(Join(xs, [sep] + pad), sep) == xs
  {
    if |xs| <= 1 {
      assert Join(xs, [sep] + pad) == Join(xs, [sep]);
      TokensJoin(xs, sep);
    } else {
      var rest := xs[1..];
      assert xs[0] in xs && forall y :: y in rest ==> y in xs;
      PaddedJoinAsPlainJoin(xs, sep, pad);
      TokensOfPaddedParts(xs[0], rest, sep, pad);
    }
  }

  lemma TokensOfPaddedParts(x: string, rest: seq<string>, sep: char, pad: string)
    requires AllWhitespace(pad) && sep !in pad
    requires x != "" && Trim(x) == x && sep !in x
    requires forall y :: y in rest ==> y != "" && Trim(y) == y && sep !in y
    ensures Tokens(Join([x] + PrefixAll(rest, pad), [sep]), sep) == [x] + rest
  {
    var t := PrefixAll(rest, pad);
    var ys := [x] + t;
    PrefixAllHasNoSeparator(rest, sep, pad);
    assert forall y :: y in ys ==> y == x || y in t;
    SplitJoin(ys, sep);
    NonEmptyTrimmedCons(x, t);
    NonEmptyTrimmedPrefixed(rest, pad);
  }

  // ---------------------------------------------------------------------------
  // Lower case
  // ---------------------------------------------------------------------------

  /** `toLowerCase` on one character, for the ASCII letters. */
  function LowerChar(c: char): (d: char)
    ensures !('A' <= d <= 'Z')
    ensures 'A' <= c <= 'Z' ==> d as int == c as int + 32
    ensures !('A' <= c <= 'Z') ==> d == c
  {
    if 'A' <= c <= 'Z' then (c as int + 32) as char else c
  }

  function Lower(s: string): (r: string)
    ensures |r| == |s|
    ensures forall i :: 0 <= i < |s| ==> r[i] == LowerChar(s[i])
  {
    seq(|s|, i requires 0 <= i < |s| => LowerChar(s[i]))
  }

  lemma LowerIdempotent(s: string)
    ensures Lower(Lower(s)) == Lower(s)
  {
  }

  // ---------------------------------------------------------------------------
  // Decimal numerals
  // ---------------------------------------------------------------------------

  predicate IsDigit(c: char) {
    '0' <= c <= '9'
  }

  predicate AllDigits(s: string) {
    forall i :: 0 <= i < |s| ==> IsDigit(s[i])
  }

  /** A match of `\d+`. */
  predicate IsNumeral(s: string) {
    |s| > 0 && AllDigits(s)
  }

  function DigitValue(c: char): nat
    requires IsDigit(c)
  {
    c as int - '0' as int
  }

  /** The value of a string of decimal digits, most significant first. */
  function DecimalValue(s: string): nat
    requires AllDigits(s)
  {
    if s == [] then 0 else 10 * DecimalValue(s[..|s| - 1]) + DigitValue(s[|s| - 1])
  }

  /** The decimal numeral JavaScript prints for a natural number. */
  function NatToDecimal(n: nat): (r: string)
    ensures IsNumeral(r)
    ensures DecimalValue(r) == n
    ensures |r| > 1 ==> r[0] != '0'
  {
    var last := ('0' as int + n % 10) as char;
    if n < 10 then [last]
    else
      var r := NatToDecimal(n / 10) + [last];
      assert r[..|r| - 1] == NatToDecimal(n / 10);
      r
  }
}
