/** Macro expansion of menu files: variables, user-defined and built-in functions, and
    the environment, as functions on text. */
module Expansion {
  import opened Exprs
  import Symbols

  datatype Flavor = Simple | Recursive

  /** `count` is how many expansions of the variable are under way. */
  datatype Variable = Variable(name: string, value: string, flavor: Flavor, count: nat)

  datatype Error =
    | SelfReference(name: string)
    | TooDeep
    | Unterminated(text: string)
    | TooManyParts
    | TooFewArguments(name: string)
    | TooManyArguments(name: string)
    | Raised(message: string)

  /** An expansion and the text it did not reach, or the error that ends the program. */
  datatype Result = Expanded(text: string, rest: string) | Failed(error: Error)

  /** What expansion can see but not change. */
  datatype World = World(environment: string -> Option<string>, shell: string -> string, file: string, line: string)

  // ----- clauses and their parts -----

  function Nest(c: char, nest: int): int { if c == '(' then nest + 1 else if c == ')' then nest - 1 else nest }

  /** The parenthesis that closes the reference the text begins in. */
  function Close(s: string, nest: nat): (r: Option<nat>)
    ensures r.Some? ==> r.value < |s|
  {
    if s == "" then None
    else if s[0] == ')' && nest == 0 then Some(0)
    else
      var r := Close(s[1..], Nest(s[0], nest));
      if r.Some? then Some(r.value + 1) else None
  }

  /** From depth `nest` the parentheses close again without going below the surface. */
  predicate Balanced(s: string, nest: int) {
    if s == "" then nest == 0 else nest >= 0 && Balanced(s[1..], Nest(s[0], nest))
  }

  /** Exactly the text up to the closing parenthesis is balanced. */
  lemma {:induction false} CloseIsBalanced(s: string, nest: nat, q: nat)
    requires q <= |s|
    ensures Close(s, nest) == Some(q) <==> q < |s| && s[q] == ')' && Balanced(s[..q], nest)
  {
    if s != "" && !(s[0] == ')' && nest == 0) && q > 0 {
      assert s[..q][1..] == s[1..][..q - 1];
      CloseIsBalanced(s[1..], Nest(s[0], nest), q - 1);
    } else if q > 0 && s != "" {
      assert s[..q][1..] == s[1..q];
      BelowSurface(s[1..q], -1);
    }
  }

  lemma BelowSurface(s: string, nest: int)
    requires nest < 0
    ensures !Balanced(s, nest)
  {
  }

  /** The parts with text put before the first one. */
  function Prefixed(text: string, parts: seq<string>): (r: seq<string>)
    requires |parts| > 0
    ensures |r| == |parts| && r[0] == text + parts[0] && r[1..] == parts[1..]
  {
    [text + parts[0]] + parts[1..]
  }

  /** The parts of a clause between its outer commas. */
  function Parts(s: string, nest: int): (r: seq<string>)
    ensures |r| > 0 && forall i :: 0 <= i < |r| ==> |r[i]| <= |s|
    decreases |s|
  {
    if s == "" then [""]
    else if nest == 0 && s[0] == ',' then [""] + Parts(s[1..], 0)
    else
      var r := Parts(s[1..], Nest(s[0], nest));
      assert forall i :: 1 <= i < |r| ==> Prefixed([s[0]], r)[i] == r[1..][i - 1];
      Prefixed([s[0]], r)
  }

  function Join(parts: seq<string>): string {
    if parts == [] then "" else if |parts| == 1 then parts[0] else parts[0] + "," + Join(parts[1..])
  }

  /** No comma of the text lies outside its parentheses. */
  predicate OnePart(s: string, nest: int) {
    s == "" || (!(nest == 0 && s[0] == ',') && OnePart(s[1..], Nest(s[0], nest)))
  }

  lemma Regroup(a: string, b: string, c: string, d: string)
    ensures a + b + c + d == a + (b + c + d)
  {
  }

  lemma {:induction false} JoinPrefixed(text: string, parts: seq<string>)
    requires |parts| > 0
    ensures Join(Prefixed(text, parts)) == text + Join(parts)
  {
    if |parts| > 1 {
      Regroup(text, parts[0], ",", Join(parts[1..]));
    }
  }

  /** The parts joined with commas are the clause again. */
  lemma {:induction false} PartsRejoin(s: string, nest: int)
    ensures Join(Parts(s, nest)) == s
  {
    if s != "" {
      assert [s[0]] + s[1..] == s;
      if nest == 0 && s[0] == ',' {
        PartsRejoin(s[1..], 0);
        assert Parts(s, nest)[1..] == Parts(s[1..], 0);
        assert "" + "," + s[1..] == s;
      } else {
        PartsRejoin(s[1..], Nest(s[0], nest));
        JoinPrefixed([s[0]], Parts(s[1..], Nest(s[0], nest)));
      }
    }
  }

  /** Every part of a balanced clause is balanced and has no outer comma. */
  lemma {:induction false} PartsAreBalanced(s: string, nest: int, i: nat)
    requires Balanced(s, nest) && i < |Parts(s, nest)|
    ensures Balanced(Parts(s, nest)[i], if i == 0 then nest else 0) && OnePart(Parts(s, nest)[i], if i == 0 then nest else 0)
  {
    if s != "" {
      if nest == 0 && s[0] == ',' {
        if i > 0 { PartsAreBalanced(s[1..], 0, i - 1); }
      } else {
        PartsAreBalanced(s[1..], Nest(s[0], nest), i);
        var r := Parts(s[1..], Nest(s[0], nest));
        if i == 0 { assert ([s[0]] + r[0])[1..] == r[0]; }
      }
    }
  }

  lemma {:induction false} OnePartThenComma(p: string, nest: int, tail: string)
    requires Balanced(p, nest) && OnePart(p, nest)
    ensures Parts(p + "," + tail, nest) == [p] + Parts(tail, 0)
    ensures Parts(p, nest) == [p]
  {
    var s := p + "," + tail;
    if p == "" {
      assert s[1..] == tail;
    } else {
      assert s[1..] == p[1..] + "," + tail;
      OnePartThenComma(p[1..], Nest(p[0], nest), tail);
      assert [p[0]] + p[1..] == p;
    }
  }

  /** There is only one way to cut a clause into balanced parts without outer commas. */
  lemma {:induction false} PartsAreUnique(parts: seq<string>)
    requires parts != [] && forall i :: 0 <= i < |parts| ==> Balanced(parts[i], 0) && OnePart(parts[i], 0)
    ensures Parts(Join(parts), 0) == parts
  {
    OnePartThenComma(parts[0], 0, Join(parts[1..]));
    assert [parts[0]] + parts[1..] == parts;
    if |parts| > 1 {
      PartsAreUnique(parts[1..]);
      assert Join(parts) == parts[0] + "," + Join(parts[1..]);
    }
  }

  // ----- variables -----

  function Find(vars: seq<Variable>, name: string): (i: nat)
    ensures i <= |vars| && (i < |vars| ==> vars[i].name == name)
  {
    if vars == [] || vars[0].name == name then 0 else 1 + Find(vars[1..], name)
  }

  const LIMIT: nat := 1000

  function Room(v: Variable): nat { if v.count <= LIMIT then LIMIT + 1 - v.count else 0 }

  /** How many more expansions could be entered: no chain of them is longer. */
  function Budget(vars: seq<Variable>): nat {
    if vars == [] then 0 else Room(vars[0]) + Budget(vars[1..])
  }

  function Enter(vars: seq<Variable>, i: nat): (r: seq<Variable>)
    requires i < |vars|
    ensures |r| == |vars|
  {
    vars[i := vars[i].(count := vars[i].count + 1)]
  }

  lemma {:induction false} EnterSpends(vars: seq<Variable>, i: nat)
    requires i < |vars| && vars[i].count <= LIMIT
    ensures Budget(Enter(vars, i)) < Budget(vars)
  {
    if i > 0 {
      assert Enter(vars, i)[1..] == Enter(vars[1..], i - 1);
      EnterSpends(vars[1..], i - 1);
    } else {
      assert Enter(vars, i)[1..] == vars[1..];
    }
  }

  // ----- expansion -----

  const MAX_PARTS: nat := 16

  type Stop = char -> bool

  /** The position of an argument, as the text of a reference names it. */
  function ArgumentNumber(text: string): nat {
    var (whole, negative, n) := Symbols.WholeNumber(text, 10);
    if !whole then 0
    else if n >= Symbols.TWO64 then Symbols.TWO64 - 1
    else if negative && n > 0 then Symbols.TWO64 - n
    else n
  }

  function BuiltIn(world: World, name: string, args: seq<string>): Option<Result> {
    var arity := if name == "error-if" || name == "warning-if" then 2 else if name == "info" || name == "shell" then 1 else 0;
    if name !in {"error-if", "filename", "info", "lineno", "shell", "warning-if"} then None
    else if |args| < arity then Some(Failed(TooFewArguments(name)))
    else if |args| > arity then Some(Failed(TooManyArguments(name)))
    else if name == "error-if" && args[0] == "y" then Some(Failed(Raised(args[1])))
    else if name == "filename" then Some(Expanded(world.file, ""))
    else if name == "lineno" then Some(Expanded(world.line, ""))
    else if name == "shell" then Some(Expanded(world.shell(args[0]), ""))
    else Some(Expanded("", ""))
  }

  function Never(): Stop { (c: char) => false }

  function Before(text: string, r: Result): Result {
    if r.Failed? then r else Expanded(text + r.text, r.rest)
  }

  /** Expands the text up to a stop character outside references. */
  function Expand(world: World, vars: seq<Variable>, s: string, args: seq<string>, stop: Stop): (r: Result)
    ensures r.Expanded? ==> |r.rest| <= |s|
    decreases Budget(vars), |s|, 0
  {
    if s == "" || (s[0] != '$' && stop(s[0])) then Expanded("", s)
    else if s[0] != '$' || s[1..] == "" || s[1] != '(' then Before([s[0]], Expand(world, vars, s[1..], args, stop))
    else
      var q := Close(s[2..], 0);
      if q.None? then Failed(Unterminated(s[2..]))
      else
        var r := Evaluate(world, vars, s[2..][..q.value], args);
        if r.Failed? then r else Before(r.text, Expand(world, vars, s[2..][q.value + 1..], args, stop))
  }

  /** The value of a reference: an argument, a variable, a built-in function or an
      environment variable. */
  function Evaluate(world: World, vars: seq<Variable>, clause: string, args: seq<string>): (r: Result)
    decreases Budget(vars), |clause|, 3
  {
    var n, parts := ArgumentNumber(clause), Parts(clause, 0);
    if 0 < n <= |args| then Expanded(args[n - 1], "")
    else if |parts| > MAX_PARTS then Failed(TooManyParts)
    else
      var name := Expand(world, vars, parts[0], args, Never());
      if name.Failed? then name
      else
        var values := ExpandAll(world, vars, |clause|, parts[1..], args);
        if values.error.Some? then Failed(values.error.value) else Invoke(world, vars, |clause|, name.text, values.texts)
  }

  datatype Texts = Texts(texts: seq<string>, error: Option<Error>)

  function ExpandAll(world: World, vars: seq<Variable>, size: nat, parts: seq<string>, args: seq<string>): (r: Texts)
    requires forall i :: 0 <= i < |parts| ==> |parts[i]| <= size
    ensures r.error.None? ==> |r.texts| == |parts|
    decreases Budget(vars), size, 1, |parts|
  {
    if parts == [] then Texts([], None)
    else
      var front := ExpandAll(world, vars, size, parts[..|parts| - 1], args);
      if front.error.Some? then front
      else
        var r := Expand(world, vars, parts[|parts| - 1], args, Never());
        if r.Failed? then Texts([], Some(r.error)) else Texts(front.texts + [r.text], None)
  }

  function Invoke(world: World, vars: seq<Variable>, size: nat, name: string, args: seq<string>): (r: Result)
    decreases Budget(vars), size, 2
  {
    var i, builtIn := Find(vars, name), BuiltIn(world, name, args);
    if i < |vars| then
      if args == [] && vars[i].count > 0 then Failed(SelfReference(name))
      else if vars[i].count > LIMIT then Failed(TooDeep)
      else if vars[i].flavor.Simple? then Expanded(vars[i].value, "")
      else
        EnterSpends(vars, i);
        Expand(world, Enter(vars, i), vars[i].value, args, Never())
    else if builtIn.Some? then builtIn.value
    else if args == [] && name != "" && world.environment(name).Some? then Expanded(world.environment(name).value, "")
    else Expanded("", "")
  }

  // ----- what expansion means -----

  /** Text without references stands for itself. */
  lemma {:induction false} PlainText(world: World, vars: seq<Variable>, s: string, args: seq<string>)
    requires '$' !in s
    ensures Expand(world, vars, s, args, Never()) == Expanded(s, "")
  {
    if s != "" {
      PlainText(world, vars, s[1..], args);
      assert [s[0]] + s[1..] == s;
    }
  }

  /** Without stop characters the whole text is expanded. */
  lemma {:induction false} NothingIsLeft(world: World, vars: seq<Variable>, s: string, args: seq<string>)
    ensures var r := Expand(world, vars, s, args, Never()); r.Expanded? ==> r.rest == ""
    decreases |s|
  {
    if s != "" {
      if s[0] != '$' || s[1..] == "" || s[1] != '(' {
        NothingIsLeft(world, vars, s[1..], args);
      } else {
        var q := Close(s[2..], 0);
        if q.Some? { NothingIsLeft(world, vars, s[2..][q.value + 1..], args); }
      }
    }
  }

  lemma {:induction false} CloseExtends(s: string, t: string, nest: nat)
    requires Close(s, nest).Some?
    ensures Close(s + t, nest) == Close(s, nest)
  {
    assert (s + t)[0] == s[0] && (s + t)[1..] == s[1..] + t;
    if !(s[0] == ')' && nest == 0) {
      CloseExtends(s[1..], t, Nest(s[0], nest));
    }
  }

  lemma ReferenceExtends(s: string, t: string)
    requires |s| >= 2 && Close(s[2..], 0).Some?
    ensures var q := Close(s[2..], 0).value;
      Close((s + t)[2..], 0) == Some(q) && (s + t)[2..][..q] == s[2..][..q] && (s + t)[2..][q + 1..] == s[2..][q + 1..] + t
    ensures s[|s| - 1] != '$' || s[2..][Close(s[2..], 0).value + 1..] != ""
  {
    assert (s + t)[2..] == s[2..] + t;
    CloseExtends(s[2..], t, 0);
    CloseIsBalanced(s[2..], 0, Close(s[2..], 0).value);
  }

  lemma BeforeBefore(a: string, b: string, r: Result)
    ensures Before("", r) == r && Before(a, Before(b, r)) == Before(a + b, r)
  {
    if r.Expanded? {
      assert "" + r.text == r.text && a + (b + r.text) == a + b + r.text;
    }
  }

  /** What a text that begins with a reference expands to. */
  lemma ExpandReference(world: World, vars: seq<Variable>, s: string, args: seq<string>, q: nat)
    requires |s| >= 2 && s[0] == '$' && s[1] == '(' && Close(s[2..], 0) == Some(q)
    ensures var r := Evaluate(world, vars, s[2..][..q], args);
      Expand(world, vars, s, args, Never()) == if r.Failed? then r else Before(r.text, Expand(world, vars, s[2..][q + 1..], args, Never()))
  {
  }

  lemma ExpandPlainCharacter(world: World, vars: seq<Variable>, s: string, args: seq<string>)
    requires s != "" && (s[0] != '$' || s[1..] == "" || s[1] != '(')
    ensures Expand(world, vars, s, args, Never()) == Before([s[0]], Expand(world, vars, s[1..], args, Never()))
  {
  }

  /** The expansion of `s + t` is that of `s` and then that of `t`. */
  predicate Concatenates(world: World, vars: seq<Variable>, s: string, t: string, args: seq<string>) {
    var r := Expand(world, vars, s, args, Never());
    r.Expanded? && Expand(world, vars, s + t, args, Never()) == Before(r.text, Expand(world, vars, t, args, Never()))
  }

  lemma ConcatPlain(world: World, vars: seq<Variable>, s: string, t: string, args: seq<string>)
    requires s != "" && (s[0] != '$' || s[1..] == "" || s[1] != '(') && Concatenates(world, vars, s[1..], t, args)
    requires s[|s| - 1] == '$' ==> t == "" || t[0] != '('
    ensures Concatenates(world, vars, s, t, args)
  {
    assert (s + t)[0] == s[0] && (s + t)[1..] == s[1..] + t;
    ExpandPlainCharacter(world, vars, s, args);
    ExpandPlainCharacter(world, vars, s + t, args);
    BeforeBefore([s[0]], Expand(world, vars, s[1..], args, Never()).text, Expand(world, vars, t, args, Never()));
  }

  lemma ConcatReference(world: World, vars: seq<Variable>, s: string, t: string, args: seq<string>, q: nat)
    requires |s| >= 2 && s[0] == '$' && s[1] == '(' && Close(s[2..], 0) == Some(q)
    requires Evaluate(world, vars, s[2..][..q], args).Expanded? && Concatenates(world, vars, s[2..][q + 1..], t, args)
    ensures Concatenates(world, vars, s, t, args)
  {
    ReferenceExtends(s, t);
    ExpandReference(world, vars, s, args, q);
    ExpandReference(world, vars, s + t, args, q);
    BeforeBefore(Evaluate(world, vars, s[2..][..q], args).text,
      Expand(world, vars, s[2..][q + 1..], args, Never()).text, Expand(world, vars, t, args, Never()));
  }

  /** Text is expanded piece by piece, unless a piece ends where a reference begins. */
  lemma {:induction false} ExpandConcat(world: World, vars: seq<Variable>, s: string, t: string, args: seq<string>)
    requires Expand(world, vars, s, args, Never()).Expanded?
    requires s != "" && s[|s| - 1] == '$' ==> t == "" || t[0] != '('
    ensures Concatenates(world, vars, s, t, args)
    decreases |s|
  {
    if s == "" {
      assert s + t == t;
      BeforeBefore("", "", Expand(world, vars, t, args, Never()));
    } else if s[0] != '$' || s[1..] == "" || s[1] != '(' {
      ExpandConcat(world, vars, s[1..], t, args);
      ConcatPlain(world, vars, s, t, args);
    } else {
      var q := Close(s[2..], 0).value;
      ReferenceExtends(s, t);
      ExpandConcat(world, vars, s[2..][q + 1..], t, args);
      ConcatReference(world, vars, s, t, args, q);
    }
  }

  /** The same variables with fewer expansions under way. */
  predicate Fewer(vars: seq<Variable>, less: seq<Variable>) {
    |vars| == |less| && forall i :: 0 <= i < |vars| ==> less[i].count <= vars[i].count && less[i] == vars[i].(count := less[i].count)
  }

  lemma {:induction false} FewerFind(vars: seq<Variable>, less: seq<Variable>, name: string)
    requires Fewer(vars, less)
    ensures Find(less, name) == Find(vars, name)
  {
    if vars != [] {
      assert less[0].name == vars[0].name;
      FewerFind(vars[1..], less[1..], name);
    }
  }

  /** The recursion counters never change a value: an expansion that succeeds gives the
      same text when fewer expansions are under way. */
  lemma {:induction false} CountersOnlyLimit(world: World, vars: seq<Variable>, less: seq<Variable>, s: string, args: seq<string>, stop: Stop)
    requires Fewer(vars, less) && Expand(world, vars, s, args, stop).Expanded?
    ensures Expand(world, less, s, args, stop) == Expand(world, vars, s, args, stop)
    decreases Budget(vars), |s|, 0
  {
    if s == "" || (s[0] != '$' && stop(s[0])) {
    } else if s[0] != '$' || s[1..] == "" || s[1] != '(' {
      CountersOnlyLimit(world, vars, less, s[1..], args, stop);
    } else {
      var q := Close(s[2..], 0).value;
      EvaluateCounters(world, vars, less, s[2..][..q], args);
      CountersOnlyLimit(world, vars, less, s[2..][q + 1..], args, stop);
    }
  }

  lemma {:induction false} EvaluateCounters(world: World, vars: seq<Variable>, less: seq<Variable>, clause: string, args: seq<string>)
    requires Fewer(vars, less) && Evaluate(world, vars, clause, args).Expanded?
    ensures Evaluate(world, less, clause, args) == Evaluate(world, vars, clause, args)
    decreases Budget(vars), |clause|, 3
  {
    var n, parts := ArgumentNumber(clause), Parts(clause, 0);
    if !(0 < n <= |args|) {
      CountersOnlyLimit(world, vars, less, parts[0], args, Never());
      ExpandAllCounters(world, vars, less, |clause|, parts[1..], args);
      InvokeCounters(world, vars, less, |clause|, Expand(world, vars, parts[0], args, Never()).text,
        ExpandAll(world, vars, |clause|, parts[1..], args).texts);
    }
  }

  lemma {:induction false} ExpandAllCounters(world: World, vars: seq<Variable>, less: seq<Variable>, size: nat, parts: seq<string>, args: seq<string>)
    requires forall i :: 0 <= i < |parts| ==> |parts[i]| <= size
    requires Fewer(vars, less) && ExpandAll(world, vars, size, parts, args).error.None?
    ensures ExpandAll(world, less, size, parts, args) == ExpandAll(world, vars, size, parts, args)
    decreases Budget(vars), size, 1, |parts|
  {
    if parts != [] {
      ExpandAllCounters(world, vars, less, size, parts[..|parts| - 1], args);
      CountersOnlyLimit(world, vars, less, parts[|parts| - 1], args, Never());
    }
  }

  lemma {:induction false} InvokeCounters(world: World, vars: seq<Variable>, less: seq<Variable>, size: nat, name: string, args: seq<string>)
    requires Fewer(vars, less) && Invoke(world, vars, size, name, args).Expanded?
    ensures Invoke(world, less, size, name, args) == Invoke(world, vars, size, name, args)
    decreases Budget(vars), size, 2
  {
    var i := Find(vars, name);
    FewerFind(vars, less, name);
    if i < |vars| && vars[i].flavor.Recursive? {
      EnterSpends(vars, i);
      CountersOnlyLimit(world, Enter(vars, i), Enter(less, i), vars[i].value, args, Never());
    }
  }

  /** The reference `$(name)`. */
  function Reference(name: string): string { "$(" + name + ")" }

  lemma {:induction false} CloseOfPlain(name: string, tail: string)
    requires '(' !in name && ')' !in name
    ensures Close(name + ")" + tail, 0) == Some(|name|)
  {
    var s := name + ")" + tail;
    if name != "" {
      assert s[1..] == name[1..] + ")" + tail;
      CloseOfPlain(name[1..], tail);
    }
  }

  lemma {:induction false} PlainIsOnePart(name: string)
    requires ',' !in name && '(' !in name && ')' !in name
    ensures Parts(name, 0) == [name]
  {
    if name != "" {
      PlainIsOnePart(name[1..]);
      assert [name[0]] + name[1..] == name;
    }
  }

  predicate PlainName(name: string) {
    '$' !in name && ',' !in name && '(' !in name && ')' !in name && ArgumentNumber(name) == 0
  }

  /** A reference to a plain name invokes it without arguments. */
  lemma ReferenceInvokes(world: World, vars: seq<Variable>, name: string, args: seq<string>)
    requires PlainName(name)
    ensures Expand(world, vars, Reference(name), args, Never()) ==
      var r := Invoke(world, vars, |name|, name, []); if r.Failed? then r else Expanded(r.text, "")
  {
    var s := Reference(name);
    assert s[2..] == name + ")" + "";
    CloseOfPlain(name, "");
    assert s[2..][..|name|] == name && s[2..][|name| + 1..] == "";
    PlainIsOnePart(name);
    PlainText(world, vars, name, args);
    assert ExpandAll(world, vars, |name|, [], args) == Texts([], None);
    var r := Invoke(world, vars, |name|, name, []);
    assert Evaluate(world, vars, name, args) == r;
    if r.Expanded? { assert r.text + "" == r.text; }
  }

  /** In the body of a user-defined function, a number stands for the argument at that place. */
  lemma ArgumentIsSubstituted(world: World, vars: seq<Variable>, number: string, args: seq<string>)
    requires '(' !in number && ')' !in number && 0 < ArgumentNumber(number) <= |args|
    ensures Expand(world, vars, Reference(number), args, Never()) == Expanded(args[ArgumentNumber(number) - 1], "")
  {
    var s := Reference(number);
    assert s[2..] == number + ")" + "";
    CloseOfPlain(number, "");
    assert s[2..][..|number|] == number && s[2..][|number| + 1..] == "";
    var r := Evaluate(world, vars, number, args);
    assert r.text + "" == r.text;
  }

  lemma {:induction false} EnterFind(vars: seq<Variable>, i: nat, name: string)
    requires i < |vars|
    ensures Find(Enter(vars, i), name) == Find(vars, name)
  {
    var inner := Enter(vars, i);
    if vars[0].name != name {
      if i > 0 {
        assert inner[1..] == Enter(vars[1..], i - 1);
        EnterFind(vars[1..], i - 1, name);
      } else {
        assert inner[1..] == vars[1..];
      }
    }
  }

  predicate IsVariable(vars: seq<Variable>, name: string) { PlainName(name) && Find(vars, name) < |vars| }

  function Named(vars: seq<Variable>, name: string): Variable
    requires IsVariable(vars, name)
  {
    vars[Find(vars, name)]
  }

  /** The value of the recursive variable is the reference to the other one. */
  predicate RefersTo(vars: seq<Variable>, name: string, other: string) {
    IsVariable(vars, name) && IsVariable(vars, other) &&
    Named(vars, name).flavor.Recursive? && Named(vars, name).value == Reference(other)
  }

  /** Each variable refers to the next one, none but the last is being expanded already,
      and the last is, or is one of those before it. */
  ghost predicate ComesBack(vars: seq<Variable>, path: seq<string>) {
    path != [] && (forall j, k :: 0 <= j && k == j + 1 && k < |path| ==> RefersTo(vars, path[j], path[k])) &&
    (forall j, k :: 0 <= j < k < |path| - 1 ==> path[j] != path[k]) &&
    (forall j :: 0 <= j < |path| - 1 ==> IsVariable(vars, path[j]) && Named(vars, path[j]).count == 0) &&
    var last := path[|path| - 1];
    IsVariable(vars, last) && (Named(vars, last).count > 0 || last in path[..|path| - 1])
  }

  lemma {:induction false} EnterNamed(vars: seq<Variable>, i: nat, name: string)
    requires i < |vars| && IsVariable(vars, name)
    ensures IsVariable(Enter(vars, i), name)
    ensures var v := Named(vars, name); Named(Enter(vars, i), name) == if Find(vars, name) == i then v.(count := v.count + 1) else v
  {
    EnterFind(vars, i, name);
  }

  lemma StillRefers(vars: seq<Variable>, i: nat, name: string, other: string)
    requires i < |vars| && RefersTo(vars, name, other)
    ensures RefersTo(Enter(vars, i), name, other)
  {
    EnterNamed(vars, i, name);
    EnterNamed(vars, i, other);
  }

  lemma {:induction false} LastComesBack(vars: seq<Variable>, path: seq<string>)
    requires ComesBack(vars, path) && |path| > 1 && IsVariable(vars, path[0])
    ensures var inner, last := Enter(vars, Find(vars, path[0])), path[|path| - 1];
      IsVariable(inner, last) && (Named(inner, last).count > 0 || last in path[1..|path| - 1])
  {
    var last := path[|path| - 1];
    EnterNamed(vars, Find(vars, path[0]), last);
    if last in path[..|path| - 1] && last != path[0] {
      var j :| 0 <= j < |path| - 1 && path[j] == last;
      assert path[1..|path| - 1][j - 1] == last;
    }
  }

  lemma OneStepBack(vars: seq<Variable>, path: seq<string>)
    requires ComesBack(vars, path) && |path| > 1
    ensures IsVariable(vars, path[0]) && ComesBack(Enter(vars, Find(vars, path[0])), path[1..])
  {
    var i, rest := Find(vars, path[0]), path[1..];
    assert RefersTo(vars, path[0], path[1]);
    var inner := Enter(vars, i);
    forall j, k | 0 <= j && k == j + 1 && k < |rest|
      ensures RefersTo(inner, rest[j], rest[k])
    {
      StillRefers(vars, i, path[j + 1], path[k + 1]);
    }
    forall j | 0 <= j < |rest| - 1
      ensures IsVariable(inner, rest[j]) && Named(inner, rest[j]).count == 0
    {
      assert rest[j] == path[j + 1] != path[0];
      EnterNamed(vars, i, path[j + 1]);
    }
    LastComesBack(vars, path);
    assert rest[..|rest| - 1] == path[1..|path| - 1];
  }

  lemma InvokeVariable(world: World, vars: seq<Variable>, size: nat, name: string)
    requires IsVariable(vars, name)
    ensures Named(vars, name).count > 0 ==> Invoke(world, vars, size, name, []) == Failed(SelfReference(name))
    ensures Named(vars, name).count == 0 && Named(vars, name).flavor.Recursive? ==>
              Invoke(world, vars, size, name, []) == Expand(world, Enter(vars, Find(vars, name)), Named(vars, name).value, [], Never())
  {
  }

  /** Variables that stand for each other in a circle are reported instead of being
      expanded for ever, from wherever the circle is entered; the variable reported is the
      first that comes up again. */
  lemma {:induction false} SelfReferenceIsReported(world: World, vars: seq<Variable>, path: seq<string>)
    requires ComesBack(vars, path)
    ensures Expand(world, vars, Reference(path[0]), [], Never()) == Failed(SelfReference(path[|path| - 1]))
    decreases |path|
  {
    ReferenceInvokes(world, vars, path[0], []);
    InvokeVariable(world, vars, |path[0]|, path[0]);
    if |path| > 1 {
      OneStepBack(vars, path);
      assert RefersTo(vars, path[0], path[1]);
      SelfReferenceIsReported(world, Enter(vars, Find(vars, path[0])), path[1..]);
    }
  }
}
