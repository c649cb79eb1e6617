/** What calls of variables and functions in menu files come to: which argument stands
    where, what each kind of name answers, and when a call is refused. */
module Calls {
  import opened Comparisons
  import opened Exprs
  import opened Expansion
  import Symbols

  /** The call `$(name,t1,...,tn)`. */
  function Call(name: string, texts: seq<string>): string { "$(" + Join([name] + texts) + ")" }

  predicate OneArgument(t: string) { Balanced(t, 0) && OnePart(t, 0) }

  predicate Plain(t: string) { '$' !in t && ',' !in t && '(' !in t && ')' !in t }

  lemma {:induction false} BalancedTogether(a: string, m: int, b: string)
    requires Balanced(a, m) && Balanced(b, 0)
    ensures Balanced(a + b, m)
  {
    if a == "" {
      assert a + b == b;
    } else {
      assert (a + b)[1..] == a[1..] + b;
      BalancedTogether(a[1..], Nest(a[0], m), b);
    }
  }

  lemma {:induction false} JoinedBalance(texts: seq<string>)
    requires forall i :: 0 <= i < |texts| ==> Balanced(texts[i], 0)
    ensures Balanced(Join(texts), 0)
  {
    if |texts| > 1 {
      JoinedBalance(texts[1..]);
      assert ("," + Join(texts[1..]))[1..] == Join(texts[1..]);
      BalancedTogether(texts[0], 0, "," + Join(texts[1..]));
      assert Join(texts) == texts[0] + ("," + Join(texts[1..]));
    }
  }

  lemma {:induction false} PlainIsOneArgument(t: string)
    requires Plain(t)
    ensures OneArgument(t)
  {
    if t != "" { PlainIsOneArgument(t[1..]); }
  }

  // ----- a clause with a comma is no number -----

  lemma {:induction false} SkipSpacesKeeps(t: string)
    requires ',' in t
    ensures ',' in Symbols.SkipSpaces(t)
  {
    if Symbols.IsSpace(t[0]) { SkipSpacesKeeps(t[1..]); }
  }

  lemma {:induction false} CommaIsNoNumber(t: string)
    requires ',' in t
    ensures ArgumentNumber(t) == 0
  {
    SkipSpacesKeeps(t);
    var u := Symbols.SkipSpaces(t);
    var w := if u[0] == '-' || u[0] == '+' then u[1..] else u;
    assert ',' in w;
    var i :| 0 <= i < |w| && w[i] == ',';
    assert Symbols.DigitValue(w[i]) == 36;
  }

  lemma {:induction false} JoinHasComma(texts: seq<string>)
    requires |texts| > 1
    ensures ',' in Join(texts)
  {
    assert Join(texts) == texts[0] + "," + Join(texts[1..]);
    assert Join(texts)[|texts[0]|] == ',';
  }

  // ----- each argument is expanded, and they keep their places -----

  /** The texts come to the given ones, each for itself. */
  ghost predicate ComeTo(world: World, vars: seq<Variable>, texts: seq<string>, args: seq<string>, values: seq<string>) {
    |values| == |texts| && forall i :: 0 <= i < |texts| ==> Expand(world, vars, texts[i], args, Never()) == Expanded(values[i], "")
  }

  lemma {:induction false} ArgumentsInOrder(world: World, vars: seq<Variable>, size: nat, texts: seq<string>, args: seq<string>, values: seq<string>)
    requires ComeTo(world, vars, texts, args, values) && forall i :: 0 <= i < |texts| ==> |texts[i]| <= size
    ensures ExpandAll(world, vars, size, texts, args) == Texts(values, None)
    decreases |texts|
  {
    if texts != [] {
      var n := |texts| - 1;
      ArgumentsInOrder(world, vars, size, texts[..n], args, values[..n]);
      assert values == values[..n] + [values[n]];
    } else {
      assert values == [];
    }
  }

  lemma ClauseOfCall(name: string, texts: seq<string>)
    requires Plain(name) && 0 < |texts| && forall i :: 0 <= i < |texts| ==> OneArgument(texts[i])
    ensures var clause := Join([name] + texts);
      Balanced(clause, 0) && Parts(clause, 0) == [name] + texts && ArgumentNumber(clause) == 0
    ensures forall i :: 0 <= i < |texts| ==> |texts[i]| <= |Join([name] + texts)|
  {
    var parts := [name] + texts;
    PlainIsOneArgument(name);
    forall i | 0 <= i < |parts| ensures OneArgument(parts[i]) { if i > 0 { assert parts[i] == texts[i - 1]; } }
    JoinedBalance(parts);
    PartsAreUnique(parts);
    JoinHasComma(parts);
    CommaIsNoNumber(Join(parts));
    forall i | 0 <= i < |texts| ensures |texts[i]| <= |Join(parts)| { assert Parts(Join(parts), 0)[i + 1] == texts[i]; }
  }

  /** A text that is one reference comes to what its clause does. */
  lemma ReferenceEvaluates(world: World, vars: seq<Variable>, clause: string, args: seq<string>)
    requires Balanced(clause, 0)
    ensures Expand(world, vars, "$(" + clause + ")", args, Never()) ==
      var r := Evaluate(world, vars, clause, args); if r.Failed? then r else Expanded(r.text, "")
  {
    var s := "$(" + clause + ")";
    assert s[2..] == clause + ")";
    CloseIsBalanced(s[2..], 0, |clause|);
    assert s[2..][..|clause|] == clause && s[2..][|clause| + 1..] == "";
    var r := Evaluate(world, vars, clause, args);
    if r.Expanded? { assert r.text + "" == r.text; }
  }

  /** A call whose arguments come to `values` invokes the name with these, in order. */
  lemma CallInvokes(world: World, vars: seq<Variable>, name: string, texts: seq<string>, args: seq<string>, values: seq<string>)
    requires Plain(name) && 0 < |texts| < 16 && forall i :: 0 <= i < |texts| ==> OneArgument(texts[i])
    requires ComeTo(world, vars, texts, args, values)
    ensures Expand(world, vars, Call(name, texts), args, Never()) ==
      var r := Invoke(world, vars, |Join([name] + texts)|, name, values); if r.Failed? then r else Expanded(r.text, "")
  {
    var parts := [name] + texts;
    var clause := Join(parts);
    ClauseOfCall(name, texts);
    ReferenceEvaluates(world, vars, clause, args);
    PlainText(world, vars, name, args);
    assert parts[1..] == texts && parts[0] == name;
    ArgumentsInOrder(world, vars, |clause|, texts, args, values);
  }

  /** Sixteen or more arguments are refused. */
  lemma TooManyAreRefused(world: World, vars: seq<Variable>, name: string, texts: seq<string>, args: seq<string>)
    requires Plain(name) && |texts| >= 16 && forall i :: 0 <= i < |texts| ==> OneArgument(texts[i])
    ensures Expand(world, vars, Call(name, texts), args, Never()) == Failed(TooManyParts)
  {
    ClauseOfCall(name, texts);
    ReferenceEvaluates(world, vars, Join([name] + texts), args);
  }

  // ----- plain arguments -----

  ghost predicate PlainArguments(texts: seq<string>) { forall i :: 0 <= i < |texts| ==> Plain(texts[i]) }

  lemma PlainComeToThemselves(world: World, vars: seq<Variable>, texts: seq<string>, args: seq<string>)
    requires PlainArguments(texts)
    ensures ComeTo(world, vars, texts, args, texts) && forall i :: 0 <= i < |texts| ==> OneArgument(texts[i])
  {
    forall i | 0 <= i < |texts|
      ensures Expand(world, vars, texts[i], args, Never()) == Expanded(texts[i], "") && OneArgument(texts[i])
    {
      PlainText(world, vars, texts[i], args);
      PlainIsOneArgument(texts[i]);
    }
  }

  lemma {:induction false} SpelledNumber(t: string, i: nat)
    requires Spells(t, i, 10) && i < Symbols.TWO64
    ensures ArgumentNumber(t) == i && '(' !in t && ')' !in t
  {
    SpelledStart(t, i, 10);
    SpelledValue(t, i, 10);
    forall k | 0 <= k < |t| ensures t[k] != '(' && t[k] != ')' { assert Symbols.DigitValue(t[k]) < 10; }
  }

  /** The user's own function whose body is `$(i)` gives its i-th argument, and no other. */
  lemma ArgumentByPlace(world: World, vars: seq<Variable>, f: nat, number: string, i: nat, texts: seq<string>, args: seq<string>)
    requires f < |vars| && Find(vars, vars[f].name) == f && Plain(vars[f].name)
    requires vars[f].flavor == Recursive && vars[f].value == Reference(number) && Spells(number, i, 10) && vars[f].count <= 1000
    requires PlainArguments(texts) && 1 <= i <= |texts| < 16
    ensures Expand(world, vars, Call(vars[f].name, texts), args, Never()) == Expanded(texts[i - 1], "")
  {
    PlainComeToThemselves(world, vars, texts, args);
    CallInvokes(world, vars, vars[f].name, texts, args, texts);
    SpelledNumber(number, i);
    ArgumentIsSubstituted(world, Enter(vars, f), number, texts);
  }

  /** A variable of the name that is found first. */
  ghost predicate IsFirst(vars: seq<Variable>, f: nat, name: string) {
    f < |vars| && vars[f].name == name && forall j :: 0 <= j < f ==> vars[j].name != name
  }

  ghost predicate Unknown(vars: seq<Variable>, name: string) { forall j :: 0 <= j < |vars| ==> vars[j].name != name }

  lemma {:induction false} FindsFirst(vars: seq<Variable>, name: string)
    ensures forall f: nat :: IsFirst(vars, f, name) <==> f < |vars| && Find(vars, name) == f
    ensures Unknown(vars, name) <==> Find(vars, name) == |vars|
  {
    if vars != [] {
      FindsFirst(vars[1..], name);
      if vars[0].name != name {
        forall f: nat | IsFirst(vars, f, name) ensures Find(vars, name) == f {
          assert IsFirst(vars[1..], f - 1, name);
        }
        forall f: nat | f < |vars| && Find(vars, name) == f ensures IsFirst(vars, f, name) {
          assert IsFirst(vars[1..], f - 1, name);
          forall j | 0 <= j < f ensures vars[j].name != name { if j > 0 { assert vars[j] == vars[1..][j - 1]; } }
        }
        if Unknown(vars[1..], name) {
          forall j | 0 <= j < |vars| ensures vars[j].name != name { if j > 0 { assert vars[j] == vars[1..][j - 1]; } }
        }
        if Unknown(vars, name) {
          forall j | 0 <= j < |vars[1..]| ensures vars[1..][j].name != name { assert vars[j + 1] == vars[1..][j]; }
        }
      }
    }
  }

  // ----- what each kind of name answers -----

  /** The answer to a name with arguments, as a call with plain arguments or a reference gets it. */
  ghost predicate Answers(world: World, vars: seq<Variable>, name: string, texts: seq<string>, args: seq<string>, r: Result) {
    Expand(world, vars, if texts == [] then Reference(name) else Call(name, texts), args, Never()) == r
  }

  lemma AnswerIsInvoked(world: World, vars: seq<Variable>, name: string, texts: seq<string>, args: seq<string>, r: Result)
    requires PlainName(name) && PlainArguments(texts) && |texts| < 16 && (r.Expanded? ==> r.rest == "")
    requires forall size: nat :: var q := Invoke(world, vars, size, name, texts); if r.Failed? then q == r else q.Expanded? && q.text == r.text
    ensures Answers(world, vars, name, texts, args, r)
  {
    if texts == [] {
      ReferenceInvokes(world, vars, name, args);
    } else {
      PlainComeToThemselves(world, vars, texts, args);
      CallInvokes(world, vars, name, texts, args, texts);
    }
  }

  /** A simple variable answers its value as it stands, ... */
  lemma SimpleAnswers(world: World, vars: seq<Variable>, f: nat, name: string, texts: seq<string>, args: seq<string>)
    requires PlainName(name) && PlainArguments(texts) && |texts| < 16 && IsFirst(vars, f, name)
    requires vars[f].count <= 1000 && (texts == [] ==> vars[f].count == 0) && vars[f].flavor == Simple
    ensures Answers(world, vars, name, texts, args, Expanded(vars[f].value, ""))
  {
    FindsFirst(vars, name);
    AnswerIsInvoked(world, vars, name, texts, args, Expanded(vars[f].value, ""));
  }

  /** ... a recursive one the expansion of it, with the arguments of the call. */
  lemma RecursiveAnswers(world: World, vars: seq<Variable>, f: nat, name: string, texts: seq<string>, args: seq<string>)
    requires PlainName(name) && PlainArguments(texts) && |texts| < 16 && IsFirst(vars, f, name)
    requires vars[f].count <= 1000 && (texts == [] ==> vars[f].count == 0) && vars[f].flavor == Recursive
    ensures Answers(world, vars, name, texts, args,
      Expand(world, vars[f := vars[f].(count := vars[f].count + 1)], vars[f].value, texts, Never()))
  {
    FindsFirst(vars, name);
    NothingIsLeft(world, Enter(vars, f), vars[f].value, texts);
    AnswerIsInvoked(world, vars, name, texts, args, Expand(world, Enter(vars, f), vars[f].value, texts, Never()));
  }

  /** A variable that comes up in its own expansion is refused, a function only when it is
      entered for the 1001st time before it has ended once. */
  lemma DeepVariableIsRefused(world: World, vars: seq<Variable>, f: nat, name: string, texts: seq<string>, args: seq<string>)
    requires PlainName(name) && PlainArguments(texts) && |texts| < 16 && IsFirst(vars, f, name)
    ensures texts == [] && vars[f].count > 0 ==> Answers(world, vars, name, texts, args, Failed(SelfReference(name)))
    ensures texts != [] && vars[f].count > 1000 ==> Answers(world, vars, name, texts, args, Failed(TooDeep))
  {
    FindsFirst(vars, name);
    if texts == [] && vars[f].count > 0 {
      AnswerIsInvoked(world, vars, name, texts, args, Failed(SelfReference(name)));
    }
    if texts != [] && vars[f].count > 1000 {
      AnswerIsInvoked(world, vars, name, texts, args, Failed(TooDeep));
    }
  }

  /** How many arguments the built-in functions take. */
  const ARITY: map<string, nat> :=
    map["error-if" := 2, "filename" := 0, "info" := 1, "lineno" := 0, "shell" := 1, "warning-if" := 2]

  lemma BuiltInIsInvoked(world: World, vars: seq<Variable>, name: string, texts: seq<string>, args: seq<string>, r: Result)
    requires name in ARITY && Unknown(vars, name) && PlainArguments(texts) && |texts| < 16
    requires BuiltIn(world, name, texts) == Some(r) && (r.Expanded? ==> r.rest == "")
    ensures Answers(world, vars, name, texts, args, r)
  {
    FindsFirst(vars, name);
    BuiltInNamesArePlain(name);
    AnswerIsInvoked(world, vars, name, texts, args, r);
  }

  /** The built-in functions answer unless a variable has their name: `error-if` ends the
      program with its second argument if the first is y, ... */
  lemma ErrorIfAnswers(world: World, vars: seq<Variable>, condition: string, message: string, args: seq<string>)
    requires Unknown(vars, "error-if") && Plain(condition) && Plain(message)
    ensures Answers(world, vars, "error-if", [condition, message], args,
      if condition == "y" then Failed(Raised(message)) else Expanded("", ""))
  {
    BuiltInIsInvoked(world, vars, "error-if", [condition, message], args,
      if condition == "y" then Failed(Raised(message)) else Expanded("", ""));
  }

  /** ... `warning-if` and `info` answer with nothing, ... */
  lemma MessagesAnswer(world: World, vars: seq<Variable>, condition: string, message: string, args: seq<string>)
    requires Plain(condition) && Plain(message)
    ensures Unknown(vars, "warning-if") ==> Answers(world, vars, "warning-if", [condition, message], args, Expanded("", ""))
    ensures Unknown(vars, "info") ==> Answers(world, vars, "info", [message], args, Expanded("", ""))
  {
    if Unknown(vars, "warning-if") {
      BuiltInIsInvoked(world, vars, "warning-if", [condition, message], args, Expanded("", ""));
    }
    if Unknown(vars, "info") { BuiltInIsInvoked(world, vars, "info", [message], args, Expanded("", "")); }
  }

  /** ... `shell` with the output of its argument, ... */
  lemma ShellAnswers(world: World, vars: seq<Variable>, command: string, args: seq<string>)
    requires Unknown(vars, "shell") && Plain(command)
    ensures Answers(world, vars, "shell", [command], args, Expanded(world.shell(command), ""))
  {
    BuiltInIsInvoked(world, vars, "shell", [command], args, Expanded(world.shell(command), ""));
  }

  /** ... and `filename` and `lineno` with the place of the call. */
  lemma PlaceAnswers(world: World, vars: seq<Variable>, args: seq<string>)
    ensures Unknown(vars, "filename") ==> Answers(world, vars, "filename", [], args, Expanded(world.file, ""))
    ensures Unknown(vars, "lineno") ==> Answers(world, vars, "lineno", [], args, Expanded(world.line, ""))
  {
    if Unknown(vars, "filename") { BuiltInIsInvoked(world, vars, "filename", [], args, Expanded(world.file, "")); }
    if Unknown(vars, "lineno") { BuiltInIsInvoked(world, vars, "lineno", [], args, Expanded(world.line, "")); }
  }

  lemma BuiltInNamesArePlain(name: string)
    requires name in ARITY
    ensures PlainName(name)
  {
    assert Symbols.DigitValue(name[0]) >= 10 && !Symbols.IsSpace(name[0]);
    assert !Symbols.AllDigits(name, 10);
  }

  lemma BuiltInArity(world: World, name: string, texts: seq<string>)
    requires name in ARITY && |texts| != ARITY[name]
    ensures BuiltIn(world, name, texts) ==
      Some(Failed(if |texts| < ARITY[name] then TooFewArguments(name) else TooManyArguments(name)))
  {
  }

  /** With another number of arguments they refuse. */
  lemma BuiltInRefuses(world: World, vars: seq<Variable>, name: string, texts: seq<string>, args: seq<string>)
    requires name in ARITY && Unknown(vars, name) && PlainArguments(texts) && |texts| != ARITY[name] && |texts| < 16
    ensures Answers(world, vars, name, texts, args,
      Failed(if |texts| < ARITY[name] then TooFewArguments(name) else TooManyArguments(name)))
  {
    BuiltInArity(world, name, texts);
    BuiltInIsInvoked(world, vars, name, texts, args,
      Failed(if |texts| < ARITY[name] then TooFewArguments(name) else TooManyArguments(name)));
  }

  /** Any other name answers from the environment, without arguments, or with nothing. */
  lemma OtherNameAnswers(world: World, vars: seq<Variable>, name: string, texts: seq<string>, args: seq<string>)
    requires PlainName(name) && name !in ARITY && Unknown(vars, name) && PlainArguments(texts) && |texts| < 16
    ensures Answers(world, vars, name, texts, args, Expanded(
      if texts == [] && name != "" && world.environment(name).Some? then world.environment(name).value else "", ""))
  {
    FindsFirst(vars, name);
    AnswerIsInvoked(world, vars, name, texts, args, Expanded(
      if texts == [] && name != "" && world.environment(name).Some? then world.environment(name).value else "", ""));
  }

  // ----- text outside references -----

  /** A dollar sign that no parenthesis follows stands for itself. */
  lemma DollarAlone(world: World, vars: seq<Variable>, t: string, args: seq<string>)
    requires t == "" || t[0] != '('
    ensures Expand(world, vars, "$" + t, args, Never()) == Before("$", Expand(world, vars, t, args, Never()))
  {
    assert ("$" + t)[1..] == t;
  }

  lemma {:induction false} NothingCloses(t: string, nest: nat)
    requires ')' !in t
    ensures Close(t, nest) == None
  {
    if t != "" { NothingCloses(t[1..], Nest(t[0], nest)); }
  }

  /** A reference without end is refused, with what follows the parenthesis. */
  lemma UnterminatedIsRefused(world: World, vars: seq<Variable>, t: string, args: seq<string>)
    requires ')' !in t
    ensures Expand(world, vars, "$(" + t, args, Never()) == Failed(Unterminated(t))
  {
    assert ("$(" + t)[2..] == t;
    NothingCloses(t, 0);
  }

  /** Where tokens are read one at a time, expansion ends before the first character that
      ends a token. */
  lemma {:induction false} TokenEnds(world: World, vars: seq<Variable>, t: string, rest: string, args: seq<string>, stop: Stop)
    requires '$' !in t && (forall i :: 0 <= i < |t| ==> !stop(t[i])) && rest != "" && rest[0] != '$' && stop(rest[0])
    ensures Expand(world, vars, t + rest, args, stop) == Expanded(t, rest)
  {
    if t == "" {
      assert t + rest == rest;
    } else {
      assert (t + rest)[1..] == t[1..] + rest && [t[0]] + t[1..] == t;
      TokenEnds(world, vars, t[1..], rest, args, stop);
    }
  }
}
