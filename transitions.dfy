/** The transition input of the advanced command: `;`-separated
    `source-target` tokens of 1-based state numbers, the validator that guards
    the input box, and the parser that turns an accepted input into
    `{source, target}` records. */
module TransitionInput {
  import opened Wrappers
  import opened Text

  const NoTransitionMessage := "Please enter at least one transition"

  /** A JavaScript number as `parseInt` can produce it: an integer or NaN. */
  datatype JsNumber = Num(value: int) | NaN

  /** The record `{source, target}` of 1-based state numbers. */
  datatype Transition = Transition(source: JsNumber, target: JsNumber)

  // ---------------------------------------------------------------------------
  // parseInt
  // ---------------------------------------------------------------------------

  predicate IsHexDigit(c: char) {
    IsDigit(c) || ('a' <= c <= 'f') || ('A' <= c <= 'F')
  }

  function HexDigitValue(c: char): nat
    requires IsHexDigit(c)
  {
    if IsDigit(c) then DigitValue(c)
    else if 'a' <= c <= 'f' then c as int - 'a' as int + 10
    else c as int - 'A' as int + 10
  }

  function HexValue(s: string): nat
    requires forall i :: 0 <= i < |s| ==> IsHexDigit(s[i])
  {
    if s == [] then 0 else 16 * HexValue(s[..|s| - 1]) + HexDigitValue(s[|s| - 1])
  }

  predicate IsRadixDigit(c: char, hex: bool) {
    if hex then IsHexDigit(c) else IsDigit(c)
  }

  /** Length of the longest prefix of `s` made of digits of the radix
      (16 when `hex`, otherwise 10). */
  function DigitRun(s: string, hex: bool): (k: nat)
    ensures k <= |s|
    ensures k < |s| ==> !IsRadixDigit(s[k], hex)
  {
    if |s| > 0 && IsRadixDigit(s[0], hex) then 1 + DigitRun(s[1..], hex) else 0
  }

  /** The run holds digits of the radix only. */
  lemma {:induction false} DigitRunDigits(s: string, hex: bool)
    ensures forall i :: 0 <= i < DigitRun(s, hex) ==> IsRadixDigit(s[i], hex)
  {
    if |s| > 0 && IsRadixDigit(s[0], hex) {
      DigitRunDigits(s[1..], hex);
      assert forall i :: 1 <= i < DigitRun(s, hex) ==> s[i] == s[1..][i - 1];
    }
  }

  /** `parseInt(s)` with no radix (ECMA-262, section 19.2.5): skip leading
      whitespace, take an optional sign, switch to radix 16 after a `0x` or
      `0X` prefix, read the longest run of digits that follows and ignore the
      rest; NaN when that run is empty. */
  function ParseInt(s: string): JsNumber {
    var t := s[LeadingWhitespace(s)..];
    var negative := |t| > 0 && t[0] == '-';
    var u := if |t| > 0 && (t[0] == '+' || t[0] == '-') then t[1..] else t;
    var hex := |u| >= 2 && u[0] == '0' && (u[1] == 'x' || u[1] == 'X');
    var digits := if hex then u[2..] else u;
    var k := DigitRun(digits, hex);
    DigitRunDigits(digits, hex);
    if k == 0 then NaN
    else
      var magnitude := if hex then HexValue(digits[..k]) else DecimalValue(digits[..k]);
      Num(if negative then -magnitude else magnitude)
  }

  /** On a string of decimal digits, `parseInt` gives its decimal value. */
  lemma ParseIntNumeral(s: string)
    requires IsNumeral(s)
    ensures ParseInt(s) == Num(DecimalValue(s))
  {
    assert LeadingWhitespace(s) == 0;
    assert s[0..] == s;
    assert !(|s| >= 2 && s[0] == '0' && (s[1] == 'x' || s[1] == 'X'));
    assert DigitRun(s, false) == |s|;
    assert s[..|s|] == s;
  }

  /** `parseInt` reads back the decimal numeral of every natural number. */
  lemma ParseIntOfDecimal(n: nat)
    ensures ParseInt(NatToDecimal(n)) == Num(n)
  {
    ParseIntNumeral(NatToDecimal(n));
  }

  // ---------------------------------------------------------------------------
  // One token
  // ---------------------------------------------------------------------------

  /** A match of `^\d+\-\d+$`: two runs of decimal digits around one dash. */
  predicate MatchesTransitionPattern(t: string) {
    exists k :: 0 <= k < |t| && t[k] == '-' && IsNumeral(t[..k]) && IsNumeral(t[k + 1..])
  }

  /** `const [sourceStr, targetStr] = t.split('-')` followed by `parseInt` of
      each; a missing second piece reads as `parseInt(undefined)`, NaN. */
  function ParseTransition(t: string): Transition {
    var parts := Split(t, '-');
    Transition(ParseInt(parts[0]), if |parts| >= 2 then ParseInt(parts[1]) else NaN)
  }

  /** The token reads as the pair of decimal values of its two digit runs. */
  ghost predicate ReadsAs(t: string, tr: Transition) {
    exists k :: 0 <= k < |t| && t[k] == '-' && IsNumeral(t[..k]) && IsNumeral(t[k + 1..]) &&
      tr == Transition(Num(DecimalValue(t[..k])), Num(DecimalValue(t[k + 1..])))
  }

  /** On a token of the pattern, split-and-parseInt yields the decimal values
      of the digit runs on either side of the dash. */
  lemma {:induction false} ParseTransitionOfPattern(t: string, k: nat)
    requires k < |t| && t[k] == '-' && IsNumeral(t[..k]) && IsNumeral(t[k + 1..])
    ensures Split(t, '-') == [t[..k], t[k + 1..]]
    ensures ParseTransition(t) == Transition(Num(DecimalValue(t[..k])), Num(DecimalValue(t[k + 1..])))
  {
    var a, b := t[..k], t[k + 1..];
    assert t == a + ['-'] + b;
    assert '-' !in a && '-' !in b by {
      assert forall i :: 0 <= i < |a| ==> IsDigit(a[i]);
      assert forall i :: 0 <= i < |b| ==> IsDigit(b[i]);
    }
    SplitCons(a, b, '-');
    SplitNoSeparator(b, '-');
    ParseIntNumeral(a);
    ParseIntNumeral(b);
  }

  /** The `isNaN` branch of the validator is dead: a token that matched the
      pattern always parses to two numbers. */
  lemma NaNBranchUnreachable(t: string)
    requires MatchesTransitionPattern(t)
    ensures ParseTransition(t).source.Num? && ParseTransition(t).target.Num?
    ensures ReadsAs(t, ParseTransition(t))
  {
    var k :| 0 <= k < |t| && t[k] == '-' && IsNumeral(t[..k]) && IsNumeral(t[k + 1..]);
    ParseTransitionOfPattern(t, k);
  }

  /** Both state numbers of the record lie in `[1, stateCount]`. */
  predicate InRange(tr: Transition, stateCount: int) {
    tr.source.Num? && tr.target.Num? &&
    1 <= tr.source.value <= stateCount && 1 <= tr.target.value <= stateCount
  }

  function FormatMessage(t: string): string {
    "Invalid transition format: " + t + ". Use format: source-target"
  }

  function NotNumericMessage(t: string): string {
    "Invalid state number: " + t + ". Must be numeric"
  }

  function RangeMessage(t: string, stateCount: nat): string {
    "Invalid state number: " + t + ". Valid range: 1-" + NatToDecimal(stateCount)
  }

  /** The verdict of one iteration of the validator's loop on token `t`. */
  function TokenError(t: string, stateCount: nat): Option<string> {
    if !MatchesTransitionPattern(t) then Some(FormatMessage(t))
    else
      var tr := ParseTransition(t);
      if tr.source.NaN? || tr.target.NaN? then Some(NotNumericMessage(t))
      else if tr.source.value < 1 || tr.source.value > stateCount ||
              tr.target.value < 1 || tr.target.value > stateCount
      then Some(RangeMessage(t, stateCount))
      else None
  }

  /** A token is acceptable when it is two digit runs around a dash whose
      decimal values both lie in `[1, stateCount]`. */
  ghost predicate TokenAccepted(t: string, stateCount: nat) {
    exists k :: 0 <= k < |t| && t[k] == '-' && IsNumeral(t[..k]) && IsNumeral(t[k + 1..]) &&
      1 <= DecimalValue(t[..k]) <= stateCount && 1 <= DecimalValue(t[k + 1..]) <= stateCount
  }

  /** A token of the pattern has one dash only. */
  lemma DashUnique(t: string, k: nat, j: nat)
    requires k < |t| && t[k] == '-' && IsNumeral(t[..k]) && IsNumeral(t[k + 1..])
    requires j < |t| && t[j] == '-'
    ensures j == k
  {
    assert forall i :: 0 <= i < k ==> t[i] == t[..k][i];
    assert forall i :: k < i < |t| ==> t[i] == t[k + 1..][i - k - 1];
  }

  /** Acceptability is decided by the values around the one dash. */
  lemma AcceptedAt(t: string, k: nat, stateCount: nat)
    requires k < |t| && t[k] == '-' && IsNumeral(t[..k]) && IsNumeral(t[k + 1..])
    ensures TokenAccepted(t, stateCount) <==>
      1 <= DecimalValue(t[..k]) <= stateCount && 1 <= DecimalValue(t[k + 1..]) <= stateCount
  {
    if TokenAccepted(t, stateCount) {
      var j :| 0 <= j < |t| && t[j] == '-' && IsNumeral(t[..j]) && IsNumeral(t[j + 1..]) &&
        1 <= DecimalValue(t[..j]) <= stateCount && 1 <= DecimalValue(t[j + 1..]) <= stateCount;
      DashUnique(t, k, j);
    }
  }

  lemma TokenAcceptedIff(t: string, stateCount: nat)
    ensures TokenError(t, stateCount) == None <==> TokenAccepted(t, stateCount)
  {
    TokenErrorSpec(t, stateCount);
  }

  /** One token passes exactly when it is acceptable; it then parses to an
      in-range record; an out-of-range token gets the message naming the range. */
  lemma TokenErrorSpec(t: string, stateCount: nat)
    ensures TokenError(t, stateCount) == None <==> TokenAccepted(t, stateCount)
    ensures TokenError(t, stateCount) == None ==> InRange(ParseTransition(t), stateCount)
    ensures MatchesTransitionPattern(t) && !TokenAccepted(t, stateCount) ==>
      TokenError(t, stateCount) == Some(RangeMessage(t, stateCount))
  {
    if MatchesTransitionPattern(t) {
      var k :| 0 <= k < |t| && t[k] == '-' && IsNumeral(t[..k]) && IsNumeral(t[k + 1..]);
      TokenErrorAt(t, k, stateCount);
      AcceptedAt(t, k, stateCount);
    }
  }

  /** The verdict on a token of the pattern, from the values around its dash. */
  lemma TokenErrorAt(t: string, k: nat, stateCount: nat)
    requires k < |t| && t[k] == '-' && IsNumeral(t[..k]) && IsNumeral(t[k + 1..])
    ensures var p, q := DecimalValue(t[..k]), DecimalValue(t[k + 1..]);
      ParseTransition(t) == Transition(Num(p), Num(q)) &&
      TokenError(t, stateCount) ==
        if 1 <= p <= stateCount && 1 <= q <= stateCount then None else Some(RangeMessage(t, stateCount))
  {
    ParseTransitionOfPattern(t, k);
  }

  // ---------------------------------------------------------------------------
  // The whole input
  // ---------------------------------------------------------------------------

  /** The first token's complaint, or `None` when every token passes. */
  function FirstTokenError(tokens: seq<string>, stateCount: nat): Option<string> {
    if tokens == [] then None
    else if TokenError(tokens[0], stateCount).Some? then TokenError(tokens[0], stateCount)
    else FirstTokenError(tokens[1..], stateCount)
  }

  /** What `validateTransitionInput(value, stateCount)` returns. */
  function TransitionInputError(value: string, stateCount: nat): Option<string> {
    if value == "" || Trim(value) == "" then Some(NoTransitionMessage)
    else FirstTokenError(Tokens(value, ';'), stateCount)
  }

  /** `validateTransitionInput`: a loop over the tokens that returns at the
      first complaint. */
  method ValidateTransitionInput(value: string, stateCount: nat) returns (message: Option<string>)
    ensures message == TransitionInputError(value, stateCount)
  {
    if value == "" || Trim(value) == "" {
      return Some(NoTransitionMessage);
    }
    var transitions := Tokens(value, ';');
    for i := 0 to |transitions|
      invariant FirstTokenError(transitions[i..], stateCount) == FirstTokenError(transitions, stateCount)
    {
      var trans := transitions[i];
      assert transitions[i..][0] == trans && transitions[i..][1..] == transitions[i + 1..];
      if !MatchesTransitionPattern(trans) {
        return Some(FormatMessage(trans));
      }
      var parts := Split(trans, '-');
      var source := ParseInt(parts[0]);
      var target := if |parts| >= 2 then ParseInt(parts[1]) else NaN;
      if source.NaN? || target.NaN? {
        return Some(NotNumericMessage(trans));
      }
      if source.value < 1 || source.value > stateCount || target.value < 1 || target.value > stateCount {
        return Some(RangeMessage(trans, stateCount));
      }
    }
    return None;
  }

  /** The token loop of the validator accepts exactly when every token is
      acceptable ... */
  lemma {:induction false} FirstTokenErrorNone(tokens: seq<string>, stateCount: nat)
    ensures FirstTokenError(tokens, stateCount) == None <==>
      forall i :: 0 <= i < |tokens| ==> TokenAccepted(tokens[i], stateCount)
  {
    if tokens != [] {
      TokenAcceptedIff(tokens[0], stateCount);
      FirstTokenErrorNone(tokens[1..], stateCount);
      assert forall i :: 1 <= i < |tokens| ==> tokens[1..][i - 1] == tokens[i];
    }
  }

  /** ... and otherwise reports the first token that is not. */
  lemma {:induction false} FirstTokenErrorFirst(tokens: seq<string>, stateCount: nat)
    requires FirstTokenError(tokens, stateCount).Some?
    ensures exists i ::
              0 <= i < |tokens| &&
              FirstTokenError(tokens, stateCount) == TokenError(tokens[i], stateCount) &&
              forall j :: 0 <= j < i ==> TokenAccepted(tokens[j], stateCount)
  {
    if TokenError(tokens[0], stateCount).None? {
      TokenAcceptedIff(tokens[0], stateCount);
      FirstTokenErrorFirst(tokens[1..], stateCount);
      var i :| 0 <= i < |tokens[1..]| &&
        FirstTokenError(tokens[1..], stateCount) == TokenError(tokens[1..][i], stateCount) &&
        forall j :: 0 <= j < i ==> TokenAccepted(tokens[1..][j], stateCount);
      assert forall j :: 1 <= j < i + 1 ==> tokens[1..][j - 1] == tokens[j];
      assert FirstTokenError(tokens, stateCount) == TokenError(tokens[i + 1], stateCount);
    } else {
      assert FirstTokenError(tokens, stateCount) == TokenError(tokens[0], stateCount);
    }
  }

  /** The validator accepts exactly the non-blank inputs all of whose tokens
      are acceptable; otherwise the message is the first offending token's. */
  lemma TransitionInputAccepts(value: string, stateCount: nat)
    ensures TransitionInputError(value, stateCount) == None <==>
      Trim(value) != "" && forall t :: t in Tokens(value, ';') ==> TokenAccepted(t, stateCount)
    ensures Trim(value) == "" ==> TransitionInputError(value, stateCount) == Some(NoTransitionMessage)
    ensures Trim(value) != "" && TransitionInputError(value, stateCount).Some? ==>
      var tokens := Tokens(value, ';');
      exists i :: 0 <= i < |tokens| && TransitionInputError(value, stateCount) == TokenError(tokens[i], stateCount) &&
        forall j :: 0 <= j < i ==> TokenAccepted(tokens[j], stateCount)
  {
    FirstTokenErrorNone(Tokens(value, ';'), stateCount);
    if TransitionInputError(value, stateCount).Some? && Trim(value) != "" {
      FirstTokenErrorFirst(Tokens(value, ';'), stateCount);
    }
  }

  /** `parseTransitions`: one record per trimmed, non-empty token, in order. */
  function ParseTransitions(input: string): (ts: seq<Transition>)
    ensures |ts| == |Tokens(input, ';')|
  {
    var tokens := Tokens(input, ';');
    seq(|tokens|, i requires 0 <= i < |tokens| => ParseTransition(tokens[i]))
  }

  /** On an input the validator accepts, every record is in range and holds
      the decimal values of its token's two digit runs. */
  lemma ParseAcceptedTransitions(input: string, stateCount: nat)
    requires TransitionInputError(input, stateCount) == None
    ensures |ParseTransitions(input)| == |Tokens(input, ';')|
    ensures forall i :: 0 <= i < |ParseTransitions(input)| ==>
      InRange(ParseTransitions(input)[i], stateCount) &&
      ReadsAs(Tokens(input, ';')[i], ParseTransitions(input)[i])
  {
    var tokens := Tokens(input, ';');
    TransitionInputAccepts(input, stateCount);
    forall i | 0 <= i < |tokens|
      ensures InRange(ParseTransitions(input)[i], stateCount) && ReadsAs(tokens[i], ParseTransitions(input)[i])
    {
      assert tokens[i] in tokens;
      TokenErrorSpec(tokens[i], stateCount);
      NaNBranchUnreachable(tokens[i]);
    }
  }

  /** An input made only of separators passes the validator and yields no
      transitions at all. */
  lemma SeparatorsOnlyAccepted(stateCount: nat)
    ensures TransitionInputError(";", stateCount) == None
    ensures ParseTransitions(";") == []
  {
    assert Trim(";") == ";" by {
      assert [] + ";" + [] == ";";
      TrimPadded([], ";", []);
    }
    TokensJoin([], ';');
    SplitJoin(["", ""], ';');
    assert Join(["", ""], [';']) == ";";
    assert NonEmptyTrimmed(["", ""]) == [] by {
      assert ["", ""][1..] == [""];
    }
  }

  lemma SingleDigitTokenTrimmed(a: char, b: char)
    requires IsDigit(a) && IsDigit(b)
    ensures Trim([a, '-', b]) == [a, '-', b] && ';' !in [a, '-', b]
  {
    var t := [a, '-', b];
    assert [] + t + [] == t;
    assert !IsJsWhitespace(a) && !IsJsWhitespace(b);
    TrimPadded([], t, []);
  }

  lemma SingleDigitValue(a: char)
    requires IsDigit(a)
    ensures IsNumeral([a]) && DecimalValue([a]) == DigitValue(a)
  {
    assert [a][..0] == [];
  }

  /** A token `a-b` of two single digits. */
  lemma SingleDigitToken(a: char, b: char)
    requires IsDigit(a) && IsDigit(b)
    ensures Trim([a, '-', b]) == [a, '-', b] && ';' !in [a, '-', b]
    ensures MatchesTransitionPattern([a, '-', b])
    ensures ParseTransition([a, '-', b]) == Transition(Num(DigitValue(a)), Num(DigitValue(b)))
  {
    SingleDigitTokenTrimmed(a, b);
    var t := [a, '-', b];
    assert t[..1] == [a] && t[2..] == [b];
    SingleDigitValue(a);
    SingleDigitValue(b);
    ParseTransitionOfPattern(t, 1);
  }

  /** Parsing a join of tokens parses each token in turn. */
  lemma ParseTransitionsOfJoin(tokens: seq<string>)
    requires forall t :: t in tokens ==> t != "" && Trim(t) == t && ';' !in t
    ensures ParseTransitions(Join(tokens, [';'])) ==
      seq(|tokens|, i requires 0 <= i < |tokens| => ParseTransition(tokens[i]))
  {
    TokensJoin(tokens, ';');
  }

  lemma JoinThree(x: string, y: string, z: string)
    ensures Join([x, y, z], [';']) == x + ";" + y + ";" + z
  {
    JoinCons(z, [], [';']);
    JoinCons(y, [z], [';']);
    JoinCons(x, [y, z], [';']);
    assert [x, y, z] == [x] + [y, z];
    assert [y, z] == [y] + [z];
  }

  predicate IsPlainToken(t: string) {
    t != "" && Trim(t) == t && ';' !in t
  }

  lemma ParseThreeTokens(t1: string, t2: string, t3: string)
    requires IsPlainToken(t1) && IsPlainToken(t2) && IsPlainToken(t3)
    ensures ParseTransitions(t1 + ";" + t2 + ";" + t3) ==
      [ParseTransition(t1), ParseTransition(t2), ParseTransition(t3)]
  {
    TokensOfThree(t1, t2, t3);
  }

  lemma TokensOfThree(t1: string, t2: string, t3: string)
    requires IsPlainToken(t1) && IsPlainToken(t2) && IsPlainToken(t3)
    ensures Tokens(t1 + ";" + t2 + ";" + t3, ';') == [t1, t2, t3]
  {
    var tokens := [t1, t2, t3];
    assert forall t :: t in tokens ==> IsPlainToken(t);
    JoinThree(t1, t2, t3);
    TokensJoin(tokens, ';');
  }

  /** Three single-digit tokens parse to their three records, in order. */
  lemma ParseThreeSingleDigitTokens(a1: char, b1: char, a2: char, b2: char, a3: char, b3: char)
    requires IsDigit(a1) && IsDigit(b1) && IsDigit(a2) && IsDigit(b2) && IsDigit(a3) && IsDigit(b3)
    ensures ParseTransitions([a1, '-', b1] + ";" + [a2, '-', b2] + ";" + [a3, '-', b3]) ==
      [Transition(Num(DigitValue(a1)), Num(DigitValue(b1))),
       Transition(Num(DigitValue(a2)), Num(DigitValue(b2))),
       Transition(Num(DigitValue(a3)), Num(DigitValue(b3)))]
  {
    SingleDigitToken(a1, b1);
    SingleDigitToken(a2, b2);
    SingleDigitToken(a3, b3);
    ParseThreeTokens([a1, '-', b1], [a2, '-', b2], [a3, '-', b3]);
  }

  /** `"1-2;2-3;2-1"` parses to the records (1,2), (2,3), (2,1), in that order. */
  lemma ParseTransitionsExample()
    ensures ParseTransitions("1-2;2-3;2-1") ==
      [Transition(Num(1), Num(2)), Transition(Num(2), Num(3)), Transition(Num(2), Num(1))]
  {
    ParseThreeSingleDigitTokens('1', '2', '2', '3', '2', '1');
    assert "1-2;2-3;2-1" == ['1', '-', '2'] + ";" + ['2', '-', '3'] + ";" + ['2', '-', '1'];
  }

  lemma FirstTokenErrorSingle(t: string, stateCount: nat)
    ensures FirstTokenError([t], stateCount) == TokenError(t, stateCount)
  {
    assert [t][1..] == [];
  }

  /** An input that is one token is judged as that token ... */
  lemma SingleTokenJudged(t: string, stateCount: nat)
    requires Tokens(t, ';') == [t]
    ensures TransitionInputError(t, stateCount) == TokenError(t, stateCount)
  {
    if Trim(t) == "" {
      TokensBlank(t, ';');
    }
    FirstTokenErrorSingle(t, stateCount);
  }

  /** `"0-1"` against three states is rejected with the range `1-3`. */
  lemma OutOfRangeExample()
    ensures TransitionInputError("0-1", 3) == Some(RangeMessage("0-1", 3))
    ensures NatToDecimal(3) == "3"
  {
    var t := ['0', '-', '1'];
    assert t == "0-1";
    SingleDigitToken('0', '1');
    assert TokenError(t, 3) == Some(RangeMessage(t, 3)) by {
      assert DigitValue('0') == 0;
    }
    TokensJoin([t], ';');
    assert Join([t], [';']) == t;
    SingleTokenJudged(t, 3);
  }
}
