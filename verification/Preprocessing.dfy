/** The preprocessor: expansion with a recursion counter in every variable, and a record
    of the environment variables it read. */
module Preprocessing {
  import opened Exprs
  import opened Expansion

  datatype EnvEntry = EnvEntry(name: string, value: string)

  class Preprocessor {
    const world: World
    var vars: seq<Variable>
    var env: seq<EnvEntry>

    constructor (world: World, vars: seq<Variable>)
      ensures this.world == world && this.vars == vars && env == [] && RecordsOnce()
    {
      this.world, this.vars, env := world, vars, [];
    }

    /** Every environment variable is recorded once and with its value. */
    ghost predicate RecordsOnce()
      reads this
    {
      (forall i :: 0 <= i < |env| ==> world.environment(env[i].name) == Some(env[i].value)) &&
      (forall i, j :: 0 <= i < j < |env| ==> env[i].name != env[j].name)
    }

    /** Expands text up to a stop character; every counter is back where it was. */
    method ExpandString(s: string, args: seq<string>, stop: Stop) returns (r: Result)
      requires RecordsOnce()
      modifies this
      ensures r == Expand(world, old(vars), s, args, stop)
      ensures r.Expanded? ==> vars == old(vars)
      ensures RecordsOnce() && old(env) <= env
      decreases Budget(vars), |s|, 4
    {
      var from: nat, p: nat, out := 0, 0, "";
      ghost var vars0 := vars;
      ghost var goal := Expand(world, vars, s, args, stop);
      BeforeBefore("", "", goal);
      assert s[0..] == s;
      while p < |s| && (s[p] == '$' || !stop(s[p]))
        invariant vars == vars0 && RecordsOnce() && old(env) <= env
        invariant Expanding(goal, world, vars0, s, args, stop, out, from, p)
        decreases |s| - p
      {
        if s[p] == '$' {
          var q;
          r, q := ExpandDollar(s, p + 1, args);
          AfterDollar(goal, world, vars0, s, args, stop, out, from, p);
          if r.Failed? {
            return;
          }
          out := out + s[from..p] + r.text;
          from, p := q, q;
        } else {
          AfterPlain(goal, world, vars0, s, args, stop, out, from, p);
          p := p + 1;
        }
      }
      out := out + s[from..p];
      assert out + "" == out;
      r := Expanded(out, s[p..]);
    }

    /** Expands the reference after a `$`; returns where the text goes on. */
    method ExpandDollar(s: string, p: nat, args: seq<string>) returns (r: Result, next: nat)
      requires RecordsOnce() && 0 < p <= |s| && s[p - 1] == '$'
      modifies this
      ensures r == DollarValue(world, old(vars), s, p, args) && next == DollarEnd(s, p) && p <= next <= |s|
      ensures r.Expanded? ==> vars == old(vars)
      ensures RecordsOnce() && old(env) <= env
      decreases Budget(vars), |s|, 3
    {
      next := p;
      if p == |s| || s[p] != '(' {
        r := Expanded("$", "");
        return;
      }
      var q := FindClose(s, p + 1);
      if q == |s| {
        r := Failed(Unterminated(s[p + 1..]));
        return;
      }
      next := q + 1;
      CloseIsBalanced(s[p + 1..], 0, q - p - 1);
      assert s[p + 1..][..q - p - 1] == s[p + 1..q];
      r := EvalClause(s[p + 1..q], args);
    }

    /** The parenthesis that closes the reference whose text begins at `p`, or the end. */
    method FindClose(s: string, p: nat) returns (q: nat)
      requires p <= |s|
      ensures p <= q <= |s| && Close(s[p..], 0) == if q == |s| then None else Some(q - p)
    {
      var nest: nat := 0;
      q := p;
      while q < |s| && !(s[q] == ')' && nest == 0)
        invariant p <= q <= |s|
        invariant Close(s[p..], 0) == var c := Close(s[q..], nest); if c.Some? then Some(c.value + q - p) else None
        decreases |s| - q
      {
        assert s[q..][1..] == s[q + 1..];
        nest := Nest(s[q], nest);
        q := q + 1;
      }
    }

    /** Evaluates the text between the parentheses of a reference. */
    method EvalClause(clause: string, args: seq<string>) returns (r: Result)
      requires RecordsOnce() && Balanced(clause, 0)
      modifies this
      ensures r == Evaluate(world, old(vars), clause, args)
      ensures r.Expanded? ==> vars == old(vars)
      ensures RecordsOnce() && old(env) <= env
      decreases Budget(vars), |clause|, 6
    {
      var n := ArgumentNumber(clause);
      if 0 < n <= |args| {
        r := Expanded(args[n - 1], "");
        return;
      }
      var parts := SplitClause(clause);
      if parts.None? {
        r := Failed(TooManyParts);
        return;
      }
      r := ExpandString(parts.value[0], args, Never());
      if r.Failed? { return; }
      var values := ExpandArguments(parts.value[1..], |clause|, args);
      if values.error.Some? {
        r := Failed(values.error.value);
        return;
      }
      r := InvokeName(r.text, values.texts, |clause|);
    }

    /** Cuts a clause at its outer commas; none if there are too many. The depth never
        goes below zero. */
    method SplitClause(clause: string) returns (r: Option<seq<string>>)
      requires Balanced(clause, 0)
      ensures r == if |Parts(clause, 0)| > MAX_PARTS then None else Some(Parts(clause, 0))
    {
      var done: seq<string>, from: nat, p: nat, nest: nat := [], 0, 0, 0;
      while p < |clause|
        invariant p <= |clause| && Cut(done, from, nest) == CutTo(clause, p) && |done| < MAX_PARTS
        decreases |clause| - p
      {
        CutIsPartOfAll(clause, p + 1);
        if nest == 0 && clause[p] == ',' {
          done := done + [clause[from..p]];
          from := p + 1;
          if |done| >= MAX_PARTS {
            return None;
          }
        } else {
          nest := Nest(clause[p], nest);
        }
        p := p + 1;
      }
      CutIsAll(clause);
      done := done + [clause[from..p]];
      return Some(done);
    }

    method ExpandArguments(parts: seq<string>, ghost size: nat, args: seq<string>) returns (r: Texts)
      requires RecordsOnce() && forall i :: 0 <= i < |parts| ==> |parts[i]| <= size
      modifies this
      ensures r == ExpandAll(world, old(vars), size, parts, args)
      ensures r.error.None? ==> vars == old(vars)
      ensures RecordsOnce() && old(env) <= env
      decreases Budget(vars), size, 5
    {
      r := Texts([], None);
      ghost var vars0 := vars;
      for i := 0 to |parts|
        invariant vars == vars0 && RecordsOnce() && old(env) <= env
        invariant r.error.None? && r == ExpandAll(world, vars0, size, parts[..i], args)
      {
        assert parts[..i + 1][..i] == parts[..i];
        var e := ExpandString(parts[i], args, Never());
        if e.Failed? {
          r := Texts([], Some(e.error));
          FirstErrorWins(world, vars0, size, parts, i + 1, args);
          return;
        }
        r := Texts(r.texts + [e.text], None);
      }
      assert parts[..|parts|] == parts;
    }

    /** A variable, else a built-in function, else an environment variable, else nothing. */
    method InvokeName(name: string, args: seq<string>, ghost size: nat) returns (r: Result)
      requires RecordsOnce()
      modifies this
      ensures r == Invoke(world, old(vars), size, name, args)
      ensures r.Expanded? ==> vars == old(vars)
      ensures RecordsOnce() && old(env) <= env
      decreases Budget(vars), size, 2
    {
      var i := 0;
      while i < |vars| && vars[i].name != name
        invariant i <= |vars| && Find(vars, name) == i + Find(vars[i..], name)
      {
        i := i + 1;
      }
      if i < |vars| {
        r := VariableExpand(i, args);
        return;
      }
      var f := BuiltIn(world, name, args);
      if f.Some? {
        return f.value;
      }
      var e := None;
      if args == [] {
        e := EnvExpand(name);
      }
      r := Expanded(if e.Some? then e.value else "", "");
    }

    /** Expands a variable, counting the expansion while it is under way. */
    method VariableExpand(i: nat, args: seq<string>) returns (r: Result)
      requires RecordsOnce() && i < |vars| && Find(vars, vars[i].name) == i
      modifies this
      ensures forall size: nat :: r == Invoke(world, old(vars), size, old(vars)[i].name, args)
      ensures r.Expanded? ==> vars == old(vars)
      ensures RecordsOnce() && old(env) <= env
      decreases Budget(vars), 0, 1
    {
      var v := vars[i];
      if args == [] && v.count > 0 {
        return Failed(SelfReference(v.name));
      }
      if v.count > LIMIT {
        return Failed(TooDeep);
      }
      if v.flavor.Simple? {
        return Expanded(v.value, "");
      }
      EnterSpends(vars, i);
      vars := vars[i := v.(count := v.count + 1)];
      r := ExpandString(v.value, args, Never());
      if r.Expanded? {
        vars := vars[i := vars[i].(count := vars[i].count - 1)];
      }
    }

    /** Looks a name up in the record, then in the environment, and records what it finds. */
    method EnvExpand(name: string) returns (r: Option<string>)
      requires RecordsOnce()
      modifies `env
      ensures r == if name == "" then None else world.environment(name)
      ensures RecordsOnce() && old(env) <= env
      ensures r.Some? ==> EnvEntry(name, r.value) in env
    {
      if name == "" {
        return None;
      }
      for i := 0 to |env|
        invariant forall k :: 0 <= k < i ==> env[k].name != name
      {
        if env[i].name == name {
          return Some(env[i].value);
        }
      }
      r := world.environment(name);
      if r.Some? {
        env := env + [EnvEntry(name, r.value)];
      }
    }
  }

  // ----- the steps as functions -----

  function DollarValue(world: World, vars: seq<Variable>, s: string, p: nat, args: seq<string>): Result
    requires 0 < p <= |s|
  {
    if p == |s| || s[p] != '(' then Expanded("$", "")
    else
      var q := Close(s[p + 1..], 0);
      if q.None? then Failed(Unterminated(s[p + 1..])) else Evaluate(world, vars, s[p + 1..][..q.value], args)
  }

  function DollarEnd(s: string, p: nat): (q: nat)
    requires 0 < p <= |s|
    ensures p <= q <= |s|
  {
    if p == |s| || s[p] != '(' then p
    else
      var q := Close(s[p + 1..], 0);
      if q.None? then p else p + 1 + q.value + 1
  }

  /** What is expanded so far, the plain text since then, and what is still to be done. */
  ghost predicate Expanding(goal: Result, world: World, vars: seq<Variable>, s: string, args: seq<string>, stop: Stop,
    out: string, from: nat, p: nat)
  {
    from <= p <= |s| && goal == Before(out + s[from..p], Expand(world, vars, s[p..], args, stop))
  }

  lemma AfterPlain(goal: Result, world: World, vars: seq<Variable>, s: string, args: seq<string>, stop: Stop,
    out: string, from: nat, p: nat)
    requires Expanding(goal, world, vars, s, args, stop, out, from, p) && p < |s| && s[p] != '$' && !stop(s[p])
    ensures Expanding(goal, world, vars, s, args, stop, out, from, p + 1)
  {
    assert s[p..][1..] == s[p + 1..];
    assert out + s[from..p + 1] == out + s[from..p] + [s[p]];
    BeforeBefore(out + s[from..p], [s[p]], Expand(world, vars, s[p + 1..], args, stop));
  }

  lemma AfterDollar(goal: Result, world: World, vars: seq<Variable>, s: string, args: seq<string>, stop: Stop,
    out: string, from: nat, p: nat)
    requires Expanding(goal, world, vars, s, args, stop, out, from, p) && p < |s| && s[p] == '$'
    ensures var r, q := DollarValue(world, vars, s, p + 1, args), DollarEnd(s, p + 1);
      if r.Failed? then goal == r else Expanding(goal, world, vars, s, args, stop, out + s[from..p] + r.text, q, q)
  {
    var r, q := DollarValue(world, vars, s, p + 1, args), DollarEnd(s, p + 1);
    DollarStep(world, vars, s, p, args, stop);
    if r.Expanded? {
      BeforeBefore(out + s[from..p], r.text, Expand(world, vars, s[q..], args, stop));
      assert out + s[from..p] + r.text + s[q..q] == out + s[from..p] + r.text;
    }
  }

  lemma DollarStep(world: World, vars: seq<Variable>, s: string, p: nat, args: seq<string>, stop: Stop)
    requires p < |s| && s[p] == '$'
    ensures var r := DollarValue(world, vars, s, p + 1, args);
      Expand(world, vars, s[p..], args, stop) ==
        if r.Failed? then r else Before(r.text, Expand(world, vars, s[DollarEnd(s, p + 1)..], args, stop))
  {
    var rest := s[p..];
    assert rest[1..] == s[p + 1..];
    if p + 1 < |s| && s[p + 1] == '(' {
      assert rest[1] == '(' && rest[2..] == s[p + 2..];
      var q := Close(s[p + 2..], 0);
      if q.Some? {
        assert s[p + 2..][q.value + 1..] == s[DollarEnd(s, p + 1)..];
      }
    } else {
      assert rest[1..] == "" || rest[1] != '(';
    }
  }

  /** A clause cut up to `p`: `done` are the finished parts, the next one begins at `from`. */
  ghost predicate Cutting(s: string, done: seq<string>, from: nat, p: nat, nest: nat) {
    from <= p <= |s| && Balanced(s[p..], nest) && Parts(s, 0) == done + Prefixed(s[from..p], Parts(s[p..], nest))
  }

  lemma CutStart(s: string)
    requires Balanced(s, 0)
    ensures Cutting(s, [], 0, 0, 0)
  {
    assert s[0..] == s;
    var r := Parts(s, 0);
    assert s[0..0] + r[0] == r[0];
  }

  lemma {:induction false} CutAtComma(s: string, done: seq<string>, from: nat, p: nat)
    requires Cutting(s, done, from, p, 0) && p < |s| && s[p] == ','
    ensures Cutting(s, done + [s[from..p]], p + 1, p + 1, 0) && |Parts(s, 0)| > |done| + 1
  {
    assert s[p..][1..] == s[p + 1..];
    var r := Parts(s[p + 1..], 0);
    var q := [""] + r;
    assert Parts(s[p..], 0) == q && q[0] == "" && q[1..] == r;
    assert s[from..p] + "" == s[from..p];
    assert s[p + 1..p + 1] + r[0] == r[0];
    assert done + ([s[from..p]] + r) == done + [s[from..p]] + r;
  }

  lemma {:induction false} CutFurther(s: string, done: seq<string>, from: nat, p: nat, nest: nat)
    requires Cutting(s, done, from, p, nest) && p < |s| && !(nest == 0 && s[p] == ',')
    ensures Nest(s[p], nest) >= 0 && Cutting(s, done, from, p + 1, Nest(s[p], nest))
  {
    assert s[p..][1..] == s[p + 1..];
    if Nest(s[p], nest) < 0 { BelowSurface(s[p + 1..], Nest(s[p], nest)); }
    var r := Parts(s[p + 1..], Nest(s[p], nest));
    var q := [[s[p]] + r[0]] + r[1..];
    assert Parts(s[p..], nest) == q && q[0] == [s[p]] + r[0] && q[1..] == r[1..];
    assert s[from..p] + ([s[p]] + r[0]) == s[from..p + 1] + r[0];
  }

  lemma {:induction false} CutEnd(s: string, done: seq<string>, from: nat, nest: nat)
    requires Cutting(s, done, from, |s|, nest)
    ensures Parts(s, 0) == done + [s[from..|s|]]
  {
    assert s[|s|..] == "";
    var last := s[from..|s|];
    assert last + [""][0] == last && [""][1..] == [];
  }

  /** The finished parts, the beginning of the next one, and the depth of parentheses. */
  datatype Cut = Cut(done: seq<string>, from: nat, nest: int)

  function CutTo(s: string, p: nat): (c: Cut)
    requires p <= |s|
    ensures c.from <= p
  {
    if p == 0 then Cut([], 0, 0)
    else
      var c := CutTo(s, p - 1);
      if c.nest == 0 && s[p - 1] == ',' then Cut(c.done + [s[c.from..p - 1]], p, 0) else c.(nest := Nest(s[p - 1], c.nest))
  }

  lemma {:induction false} CutIsCutting(s: string, p: nat)
    requires p <= |s| && Balanced(s, 0)
    ensures var c := CutTo(s, p); c.nest >= 0 && Cutting(s, c.done, c.from, p, c.nest)
  {
    if p == 0 {
      CutStart(s);
    } else {
      var c := CutTo(s, p - 1);
      CutIsCutting(s, p - 1);
      if c.nest == 0 && s[p - 1] == ',' {
        CutAtComma(s, c.done, c.from, p - 1);
      } else {
        CutFurther(s, c.done, c.from, p - 1, c.nest);
      }
    }
  }

  lemma CutIsPartOfAll(s: string, p: nat)
    requires p <= |s| && Balanced(s, 0)
    ensures CutTo(s, p).nest >= 0 && |CutTo(s, p).done| < |Parts(s, 0)|
  {
    CutIsCutting(s, p);
  }

  lemma {:induction false} CutIsAll(s: string)
    requires Balanced(s, 0)
    ensures var c := CutTo(s, |s|); Parts(s, 0) == c.done + [s[c.from..|s|]]
  {
    var c := CutTo(s, |s|);
    CutIsCutting(s, |s|);
    CutEnd(s, c.done, c.from, c.nest);
  }

  lemma {:induction false} FirstErrorWins(world: World, vars: seq<Variable>, size: nat, parts: seq<string>, n: nat, args: seq<string>)
    requires n <= |parts| && forall i :: 0 <= i < |parts| ==> |parts[i]| <= size
    requires ExpandAll(world, vars, size, parts[..n], args).error.Some?
    ensures ExpandAll(world, vars, size, parts, args) == ExpandAll(world, vars, size, parts[..n], args)
    decreases |parts|
  {
    if n == |parts| {
      assert parts[..n] == parts;
    } else {
      assert parts[..|parts| - 1][..n] == parts[..n];
      FirstErrorWins(world, vars, size, parts[..|parts| - 1], n, args);
    }
  }
}
