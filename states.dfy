/** The state-list input: the `;`-separated names typed into the first input
    box, the identifier rule every name must satisfy, and the message the box
    shows while the input is not acceptable. */
module StateInput {
  import opened Wrappers
  import opened Text

  const TooFewStatesMessage := "Please enter at least two state names"
  const InvalidNamesPrefix := "Invalid state names: "

  predicate IsLetterOrUnderscore(c: char) {
    ('a' <= c <= 'z') || ('A' <= c <= 'Z') || c == '_'
  }

  predicate IsIdentifierChar(c: char) {
    IsLetterOrUnderscore(c) || ('0' <= c <= '9')
  }

  /** A match of `^[a-zA-Z_][a-zA-Z0-9_]*$`. */
  predicate IsValidIdentifier(name: string) {
    |name| > 0 && IsLetterOrUnderscore(name[0]) &&
    forall i :: 0 < i < |name| ==> IsIdentifierChar(name[i])
  }

  /** An identifier holds no whitespace, no `;`, no `,` and no line break, and
      it is left unchanged by trim. */
  lemma IdentifierShape(name: string)
    requires IsValidIdentifier(name)
    ensures forall i :: 0 <= i < |name| ==> !IsJsWhitespace(name[i])
    ensures ';' !in name && ',' !in name && '\n' !in name && '-' !in name
    ensures Trim(name) == name
  {
    assert forall i :: 0 <= i < |name| ==> IsIdentifierChar(name[i]);
    TrimUnpadded(name);
  }

  /** `value.split(';').map(s => s.trim()).filter(s => s !== '')`. */
  function ParseStates(value: string): (states: seq<string>)
    ensures forall s :: s in states ==> s != "" && Trim(s) == s && ';' !in s
  {
    JoinSplitTokensNoSeparator(value);
    Tokens(value, ';')
  }

  /** No token of a `;`-split holds a `;`. */
  lemma JoinSplitTokensNoSeparator(value: string)
    ensures forall s :: s in Tokens(value, ';') ==> ';' !in s
  {
    TokensHaveNoSeparator(Split(value, ';'), ';');
  }

  lemma {:induction false} TokensHaveNoSeparator(segments: seq<string>, sep: char)
    requires forall p :: p in segments ==> sep !in p
    ensures forall s :: s in NonEmptyTrimmed(segments) ==> sep !in s
  {
    if segments != [] {
      var p := segments[0];
      assert p in segments;
      var l := LeadingWhitespace(p);
      var t := Trim(p);
      assert t == p[l..l + |t|];
      assert sep !in t;
      assert forall q :: q in segments[1..] ==> q in segments;
      TokensHaveNoSeparator(segments[1..], sep);
    }
  }

  /** `states.filter(name => !/^[a-zA-Z_][a-zA-Z0-9_]*$/.test(name))`. */
  function InvalidNames(states: seq<string>): (bad: seq<string>)
    ensures |bad| <= |states|
    ensures forall x :: x in bad <==> x in states && !IsValidIdentifier(x)
  {
    if states == [] then []
    else (if IsValidIdentifier(states[0]) then [] else [states[0]]) + InvalidNames(states[1..])
  }

  /** The bad names of a one-name list: the name itself when it is malformed ... */
  lemma InvalidNamesSingle(name: string)
    ensures InvalidNames([name]) == if IsValidIdentifier(name) then [] else [name]
  {
  }

  /** ... and of a longer list, those of its parts in turn: the filter keeps the
      input order and every repetition. */
  lemma {:induction false} InvalidNamesAppend(xs: seq<string>, ys: seq<string>)
    ensures InvalidNames(xs + ys) == InvalidNames(xs) + InvalidNames(ys)
  {
    if xs == [] {
      assert xs + ys == ys;
    } else {
      assert (xs + ys)[1..] == xs[1..] + ys;
      InvalidNamesAppend(xs[1..], ys);
    }
  }

  /** The `validateInput` callback of the state-name box: `None` (JavaScript's
      `null`) accepts the input, `Some(m)` shows message `m`. */
  function ValidateStateInput(value: string): (r: Option<string>)
  {
    if value == "" || Trim(value) == "" then Some(TooFewStatesMessage)
    else
      var states := ParseStates(value);
      if |states| < 2 then Some(TooFewStatesMessage)
      else
        var invalid := InvalidNames(states);
        if |invalid| > 0 then Some(InvalidNamesPrefix + Join(invalid, ", "))
        else None
  }

  /** The box accepts exactly the inputs with at least two names, all of them
      identifiers. */
  lemma ValidateStateInputAccepts(value: string)
    ensures ValidateStateInput(value) == None <==>
      |ParseStates(value)| >= 2 && forall s :: s in ParseStates(value) ==> IsValidIdentifier(s)
  {
    if Trim(value) == "" {
      TokensBlank(value, ';');
    }
    var states := ParseStates(value);
    if |states| >= 2 && InvalidNames(states) != [] {
      assert InvalidNames(states)[0] in InvalidNames(states);
    }
  }

  /** The blank-input guard is subsumed by the count check: the message depends
      only on the parsed names, and a rejection for bad names lists every bad
      name, in input order, separated by ", ". */
  lemma ValidateStateInputMessage(value: string)
    ensures ValidateStateInput(value) ==
      var states := ParseStates(value);
      if |states| < 2 then Some(TooFewStatesMessage)
      else if InvalidNames(states) != [] then Some(InvalidNamesPrefix + Join(InvalidNames(states), ", "))
      else None
  {
    if Trim(value) == "" {
      TokensBlank(value, ';');
    }
  }

  /** Empty segments, between names or at the end, are dropped. */
  lemma ParseStatesDropsEmptySegments(a: string, b: string)
    requires IsValidIdentifier(a) && IsValidIdentifier(b)
    ensures ParseStates(a + ";;" + b + ";") == [a, b]
  {
    IdentifierShape(a);
    IdentifierShape(b);
    SplitJoin([a, "", b, ""], ';');
    JoinFour(a, b);
    NonEmptyTrimmedCons("", []);
    NonEmptyTrimmedCons(b, [""]);
    NonEmptyTrimmedCons("", [b, ""]);
    NonEmptyTrimmedCons(a, ["", b, ""]);
  }

  lemma ParseStatesExample()
    ensures ParseStates("IDLE;;RUN;") == ["IDLE", "RUN"]
  {
    assert "IDLE;;RUN;" == "IDLE" + ";;" + "RUN" + ";";
    ParseStatesDropsEmptySegments("IDLE", "RUN");
  }

  lemma JoinFour(a: string, b: string)
    ensures Join([a, "", b, ""], [';']) == a + ";;" + b + ";"
  {
    JoinCons(b, [""], [';']);
    JoinCons("", [b, ""], [';']);
    JoinCons(a, ["", b, ""], [';']);
    assert [a, "", b, ""] == [a] + ["", b, ""];
    assert ["", b, ""] == [""] + [b, ""];
    assert [b, ""] == [b] + [""];
  }

  /** With two names of which only the first is malformed, the message names it. */
  lemma MalformedNameReported(bad: string, good: string)
    requires bad != "" && Trim(bad) == bad && ';' !in bad && !IsValidIdentifier(bad)
    requires IsValidIdentifier(good)
    ensures ValidateStateInput(bad + ";" + good) == Some(InvalidNamesPrefix + bad)
  {
    IdentifierShape(good);
    TokensJoin([bad, good], ';');
    assert Join([bad, good], [';']) == bad + ";" + good;
    ValidateStateInputMessage(bad + ";" + good);
    assert InvalidNames([bad, good]) == [bad] by {
      assert [bad, good][1..] == [good];
    }
  }

  lemma LeadingDigitNameTrimmed()
    ensures Trim("1BAD") == "1BAD" && !IsValidIdentifier("1BAD") && ';' !in "1BAD"
  {
    var x := "1BAD";
    assert forall i :: 0 <= i < |x| ==> IsIdentifierChar(x[i]);
    TrimUnpadded(x);
  }

  /** A name with a leading digit is reported by name. */
  lemma LeadingDigitRejected()
    ensures ValidateStateInput("1BAD;OK") == Some(InvalidNamesPrefix + "1BAD")
  {
    LeadingDigitNameTrimmed();
    assert "1BAD;OK" == "1BAD" + ";" + "OK";
    MalformedNameReported("1BAD", "OK");
  }

  /** A single name is not enough. */
  lemma SingleStateRejected()
    ensures ValidateStateInput("ONLY") == Some(TooFewStatesMessage)
  {
    IdentifierShape("ONLY");
    TokensJoin(["ONLY"], ';');
    ValidateStateInputMessage("ONLY");
  }
}
