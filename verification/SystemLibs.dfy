/** Collecting the shared libraries a package needs from the system: a worklist that is
    closed over the NEEDED entries of every library that is copied. */
module SystemLibs {
  import opened Exprs
  import opened Sequences

  /** The file a library name resolves to: its own name and where it is. */
  datatype File = File(base: string, path: string)

  /** The system: how names resolve, what a file needs, and for a file that has an
      interpreter, the name of that interpreter if it can be read off. */
  datatype System = System(find: string -> Option<File>, needed: string -> seq<string>, interpreter: string -> Option<string>)

  /** `copied` says from where each copied library came, `links` which names were linked to
      which libraries. */
  datatype State = State(libs: seq<string>, existed: seq<string>, unknown: seq<string>,
    copied: map<string, string>, links: map<string, string>, ldso: Option<string>)

  predicate Known(st: State, name: string) { name in st.existed || name in st.unknown }

  function Add(st: State, name: string): State {
    if Known(st, name) || name in st.libs then st else st.(libs := st.libs + [name])
  }

  function AddAll(st: State, names: seq<string>): State {
    if names == [] then st else Add(AddAll(st, names[..|names| - 1]), names[|names| - 1])
  }

  function Remove(l: seq<string>, x: string): seq<string> {
    if l == [] then [] else if l[0] == x then l[1..] else [l[0]] + Remove(l[1..], x)
  }

  function AddInterpreter(w: System, st: State, path: string): State {
    var i := w.interpreter(path);
    if i.Some? && st.ldso.None? then Add(st.(ldso := i), i.value) else st
  }

  /** Copies a library and queues what it needs. */
  function Copy(w: System, st: State, f: File): State {
    var st' := AddAll(AddInterpreter(w, st, f.path), w.needed(f.path));
    st'.(copied := st'.copied[f.base := f.path], existed := st'.existed + [f.base], libs := Remove(st'.libs, f.base))
  }

  function Link(st: State, lib: string, base: string): State {
    st.(links := st.links[lib := base], existed := st.existed + [lib], libs := Remove(st.libs, lib))
  }

  /** What happens to the first pending name. */
  function Step(w: System, st: State): State
    requires st.libs != []
  {
    var lib := st.libs[0];
    match w.find(lib)
    case None => st.(unknown := st.unknown + [lib], libs := Remove(st.libs, lib))
    case Some(f) =>
      var st' := if Known(st, f.base) then st else Copy(w, st, f);
      if lib != f.base then Link(st', lib, f.base) else st'
  }

  // ----- the invariant -----

  predicate Pending(st: State) {
    Distinct(st.libs) && forall x :: x in st.libs ==> !Known(st, x)
  }

  function Unsettled(names: set<string>, st: State): set<string> { set x | x in names && !Known(st, x) }

  predicate Apart(st: State) { forall x :: x in st.existed ==> x !in st.unknown }

  predicate Seen(st: State, name: string) { Known(st, name) || name in st.libs }

  /** What every copied library needs has been dealt with or is pending. */
  predicate Served(w: System, st: State) {
    forall r :: r in st.copied ==> ServedFile(w, st, st.copied[r])
  }

  predicate ServedFile(w: System, st: State, path: string) {
    forall n :: n in w.needed(path) ==> Seen(st, n)
  }

  /** No name is forgotten or becomes unsettled. */
  ghost predicate Forward(st: State, r: State) {
    (forall x :: Known(st, x) ==> Known(r, x)) && (forall x :: Seen(st, x) ==> Seen(r, x))
  }

  lemma ServedStays(w: System, st: State, r: State, path: string)
    requires ServedFile(w, st, path) && Forward(st, r)
    ensures ServedFile(w, r, path)
  {
  }

  predicate LinksLead(st: State) {
    forall l :: l in st.links ==> l in st.existed && Known(st, st.links[l])
  }

  /** Whatever exists now was there at first, was copied, or is a link to the library its
      name resolves to; whatever is unknown cannot be found. */
  ghost predicate Accounted(w: System, st: State, first: seq<string>) {
    (forall x :: x in st.existed <==> x in first || x in st.copied || x in st.links) &&
    (forall x :: x in st.unknown ==> w.find(x).None?) &&
    (forall l :: l in st.links ==> w.find(l).Some? && w.find(l).value.base == st.links[l])
  }

  /** A set of names that is closed under what their libraries need. */
  ghost predicate ClosedSet(w: System, names: iset<string>) {
    forall l :: l in names ==> w.find(l).None? || FileInside(w, w.find(l).value.path, names)
  }

  ghost predicate FileInside(w: System, path: string, names: iset<string>) {
    (forall n :: n in w.needed(path) ==> n in names) && (w.interpreter(path).Some? ==> w.interpreter(path).value in names)
  }

  /** Everything pending, copied or reported was reached from within the set. */
  ghost predicate Inside(w: System, st: State, names: iset<string>) {
    (forall x :: x in st.libs || x in st.unknown ==> x in names) &&
    (forall r :: r in st.copied ==> exists l :: l in names && w.find(l) == Some(File(r, st.copied[r])))
  }

  ghost predicate Good(w: System, st: State, first: seq<string>, names: iset<string>) {
    Pending(st) && Apart(st) && Served(w, st) && LinksLead(st) && Accounted(w, st, first) && Inside(w, st, names)
  }

  // ----- one step keeps it -----

  lemma {:induction false} RemoveMembers(l: seq<string>, x: string)
    requires Distinct(l)
    ensures Distinct(Remove(l, x)) && forall y :: y in Remove(l, x) <==> y in l && y != x
  {
    if l != [] {
      var tail := l[1..];
      assert forall y :: y in l <==> y == l[0] || y in tail;
      assert l[0] !in tail;
      if l[0] != x {
        RemoveMembers(tail, x);
      }
    }
  }

  lemma {:induction false} AddAllKeeps(st: State, names: seq<string>)
    requires Pending(st)
    ensures var r := AddAll(st, names);
      r == st.(libs := r.libs) && Pending(r) && forall x :: x in r.libs <==> x in st.libs || (x in names && !Known(st, x))
  {
    if names != [] {
      AddAllKeeps(st, names[..|names| - 1]);
      assert names == names[..|names| - 1] + [names[|names| - 1]];
    }
  }

  lemma AddInterpreterKeeps(w: System, st: State, path: string)
    requires Pending(st)
    ensures var r := AddInterpreter(w, st, path);
      r == st.(libs := r.libs, ldso := r.ldso) && Pending(r) &&
      forall x :: x in r.libs ==> x in st.libs || w.interpreter(path) == Some(x)
    ensures forall x :: x in st.libs ==> x in AddInterpreter(w, st, path).libs
  {
  }

  /** Which names a copy queues and settles. */
  lemma CopyNames(w: System, st: State, f: File)
    requires Pending(st) && !Known(st, f.base)
    ensures var r := Copy(w, st, f);
      Pending(r) && Forward(st, r) && ServedFile(w, r, f.path) &&
      (forall x :: x in r.libs ==> x in st.libs || x in w.needed(f.path) || w.interpreter(f.path) == Some(x)) &&
      (forall x :: x in st.libs && x != f.base ==> x in r.libs) &&
      r == st.(libs := r.libs, ldso := r.ldso, copied := st.copied[f.base := f.path], existed := st.existed + [f.base])
  {
    var a := AddInterpreter(w, st, f.path);
    var b := AddAll(a, w.needed(f.path));
    AddInterpreterKeeps(w, st, f.path);
    AddAllKeeps(a, w.needed(f.path));
    RemoveMembers(b.libs, f.base);
  }

  lemma CopyKeeps(w: System, st: State, f: File, lib: string, first: seq<string>, names: iset<string>)
    requires Good(w, st, first, names) && ClosedSet(w, names)
    requires lib in st.libs && w.find(lib) == Some(f) && !Known(st, f.base)
    ensures Good(w, Copy(w, st, f), first, names)
  {
    var r := Copy(w, st, f);
    CopyNames(w, st, f);
    assert FileInside(w, f.path, names);
    forall q | q in r.copied
      ensures ServedFile(w, r, r.copied[q]) && exists l :: l in names && w.find(l) == Some(File(q, r.copied[q]))
    {
      if q == f.base {
        assert lib in names && w.find(lib) == Some(File(q, r.copied[q]));
      } else {
        ServedStays(w, st, r, st.copied[q]);
      }
    }
  }

  lemma {:induction false} LinkKeeps(w: System, st: State, lib: string, base: string, first: seq<string>, names: iset<string>)
    requires Good(w, st, first, names) && lib in st.libs && Known(st, base) && lib != base
    requires w.find(lib).Some? && w.find(lib).value.base == base
    ensures Good(w, Link(st, lib, base), first, names) && Forward(st, Link(st, lib, base))
  {
    var r := Link(st, lib, base);
    RemoveMembers(st.libs, lib);
    forall q | q in r.copied ensures ServedFile(w, r, r.copied[q]) { ServedStays(w, st, r, st.copied[q]); }
  }

  lemma {:induction false} ReportKeeps(w: System, st: State, lib: string, first: seq<string>, names: iset<string>)
    requires Good(w, st, first, names) && lib in st.libs && w.find(lib).None?
    ensures var r := st.(unknown := st.unknown + [lib], libs := Remove(st.libs, lib));
      Good(w, r, first, names) && Forward(st, r)
  {
    var r := st.(unknown := st.unknown + [lib], libs := Remove(st.libs, lib));
    RemoveMembers(st.libs, lib);
    forall q | q in r.copied ensures ServedFile(w, r, r.copied[q]) { ServedStays(w, st, r, st.copied[q]); }
  }

  /** A step keeps the invariant, settles the name it looks at and unsettles none. */
  lemma StepKeeps(w: System, st: State, first: seq<string>, names: iset<string>)
    requires st.libs != [] && Good(w, st, first, names) && ClosedSet(w, names)
    ensures Good(w, Step(w, st), first, names)
    ensures Known(Step(w, st), st.libs[0]) && Forward(st, Step(w, st))
  {
    var lib := st.libs[0];
    match w.find(lib)
    case None => ReportKeeps(w, st, lib, first, names);
    case Some(f) =>
      var st' := if Known(st, f.base) then st else Copy(w, st, f);
      if !Known(st, f.base) {
        CopyKeeps(w, st, f, lib, first, names);
        CopyNames(w, st, f);
      }
      if lib != f.base {
        LinkKeeps(w, st', lib, f.base, first, names);
      }
  }

  // ----- the interpreter -----

  /** The interpreter is one that a copied library names, there is one as soon as any
      copied library names one, and it is known or pending. */
  ghost predicate LoaderServed(w: System, st: State) {
    (st.ldso.Some? ==> Seen(st, st.ldso.value) && exists r :: r in st.copied && w.interpreter(st.copied[r]) == st.ldso) &&
    (forall r :: r in st.copied && w.interpreter(st.copied[r]).Some? ==> st.ldso.Some?)
  }

  lemma {:induction false} CopyServesLoader(w: System, st: State, f: File)
    requires LoaderServed(w, st) && Pending(st) && !Known(st, f.base) && f.base !in st.copied
    ensures LoaderServed(w, Copy(w, st, f))
  {
    var r := Copy(w, st, f);
    var a := AddInterpreter(w, st, f.path);
    var b := AddAll(a, w.needed(f.path));
    AddInterpreterKeeps(w, st, f.path);
    AddAllKeeps(a, w.needed(f.path));
    RemoveMembers(b.libs, f.base);
    CopyNames(w, st, f);
    assert r.ldso == if st.ldso.Some? then st.ldso else w.interpreter(f.path);
    if st.ldso.Some? {
      var q :| q in st.copied && w.interpreter(st.copied[q]) == st.ldso;
      assert q in r.copied && r.copied[q] == st.copied[q];
    } else {
      assert f.base in r.copied && r.copied[f.base] == f.path;
    }
  }

  lemma {:induction false} StepServesLoader(w: System, st: State, first: seq<string>, names: iset<string>)
    requires st.libs != [] && Good(w, st, first, names) && ClosedSet(w, names) && LoaderServed(w, st)
    ensures LoaderServed(w, Step(w, st))
  {
    var lib := st.libs[0];
    StepKeeps(w, st, first, names);
    match w.find(lib)
    case None =>
    case Some(f) =>
      var st' := if Known(st, f.base) then st else Copy(w, st, f);
      if !Known(st, f.base) {
        CopyServesLoader(w, st, f);
        CopyKeeps(w, st, f, lib, first, names);
        CopyNames(w, st, f);
      }
      if lib != f.base { LinkKeeps(w, st', lib, f.base, first, names); }
  }

  // ----- links that lead nowhere -----

  function Start(existed: seq<string>, wanted: seq<string>): State { State(wanted, existed, [], map[], map[], None) }

  /** The state after `n` steps, or after the last one. */
  function Steps(w: System, st: State, n: nat): State
    decreases n
  {
    if n == 0 || st.libs == [] then st else Steps(w, Step(w, st), n - 1)
  }

  predicate Dangles(st: State, l: string) { l in st.links && st.links[l] !in st.existed }

  /** A run over the wanted names ends with the link dangling. */
  ghost predicate RunDangles(w: System, existed: seq<string>, wanted: seq<string>, n: nat, l: string) {
    Distinct(wanted) && (forall x :: x in wanted ==> x !in existed) &&
    var st := Steps(w, Start(existed, wanted), n);
    st.libs == [] && Dangles(st, l)
  }

  /** The library that the name stands for can itself be found by its name. */
  predicate Resolves(w: System, l: string) {
    w.find(l).Some? ==> w.find(w.find(l).value.base).Some?
  }

  lemma {:induction false} StepsKeep(w: System, st: State, first: seq<string>, n: nat)
    requires Good(w, st, first, Everything())
    ensures Good(w, Steps(w, st, n), first, Everything())
    decreases n
  {
    if n > 0 && st.libs != [] {
      StepKeeps(w, st, first, Everything());
      StepsKeep(w, Step(w, st), first, n - 1);
    }
  }

  ghost function Everything(): iset<string> { iset x: string | |x| >= 0 }

  lemma DanglingIsUnresolved(w: System, st: State, first: seq<string>, names: iset<string>, l: string)
    requires Good(w, st, first, names) && Dangles(st, l)
    ensures !Resolves(w, l)
  {
    assert st.links[l] in st.unknown;
  }

  /** Given a name whose library cannot be found, asking for the library and then for
      the name leaves a link that leads nowhere. */
  lemma UnresolvedDangles(w: System, l: string)
    requires !Resolves(w, l)
    ensures RunDangles(w, [], [w.find(l).value.base, l], 2, l)
  {
    var base := w.find(l).value.base;
    var st := Start([], [base, l]);
    assert Remove([base, l], base) == [l] && Remove([l], l) == [];
    assert Step(w, st) == State([l], [], [base], map[], map[], None);
    var end := Step(w, Step(w, st));
    assert end == State([], [l], [base], map[], map[l := base], None);
    assert Steps(w, st, 2) == Steps(w, Step(w, st), 1) == Steps(w, end, 0);
  }

  /** No run on a system leaves a link that leads nowhere, exactly when every library
      that some name stands for can be found by its own name. */
  lemma {:induction false} NothingDanglesIff(w: System)
    ensures (forall existed, wanted, n, l :: !RunDangles(w, existed, wanted, n, l)) <==> forall l :: Resolves(w, l)
  {
    forall l | !Resolves(w, l)
      ensures RunDangles(w, [], [w.find(l).value.base, l], 2, l)
    {
      UnresolvedDangles(w, l);
    }
    forall existed, wanted, n: nat, l | RunDangles(w, existed, wanted, n, l)
      ensures !Resolves(w, l)
    {
      StepsKeep(w, Start(existed, wanted), existed, n);
      DanglingIsUnresolved(w, Steps(w, Start(existed, wanted), n), existed, Everything(), l);
    }
  }

  ghost function Within(names: set<string>): iset<string> { iset x | x in names }

  // ----- the package -----

  class Package {
    const w: System
    var st: State

    constructor (w: System, existed: seq<string>)
      ensures this.w == w && st == State([], existed, [], map[], map[], None)
    {
      this.w := w;
      st := State([], existed, [], map[], map[], None);
    }

    method ProcessNeeded(names: seq<string>)
      modifies this
      ensures st == AddAll(old(st), names)
    {
      for i := 0 to |names|
        invariant st == AddAll(old(st), names[..i])
      {
        assert names[..i + 1][..i] == names[..i];
        if names[i] !in st.existed && names[i] !in st.unknown && names[i] !in st.libs {
          st := st.(libs := st.libs + [names[i]]);
        }
      }
      assert names[..|names|] == names;
    }

    /** Copies a library: what it needs is then known or pending, nothing else but an
        interpreter is queued, and it is itself no longer pending. */
    method CopyLibrary(f: File)
      modifies this
      ensures st == Copy(w, old(st), f)
      ensures f.base in st.copied && st.copied[f.base] == f.path && f.base in st.existed
      ensures Pending(old(st)) && !Known(old(st), f.base) ==>
                Pending(st) && ServedFile(w, st, f.path) && Forward(old(st), st) && f.base !in st.libs &&
                forall x :: x in st.libs ==> x in old(st.libs) || x in w.needed(f.path) || w.interpreter(f.path) == Some(x)
    {
      if Pending(st) && !Known(st, f.base) { CopyNames(w, st, f); }
      var i := w.interpreter(f.path);
      if i.Some? && st.ldso.None? {
        st := st.(ldso := i);
        if i.value !in st.existed && i.value !in st.unknown && i.value !in st.libs {
          st := st.(libs := st.libs + [i.value]);
        }
      }
      ProcessNeeded(w.needed(f.path));
      st := st.(copied := st.copied[f.base := f.path], existed := st.existed + [f.base]);
      st := st.(libs := Remove(st.libs, f.base));
    }

    /** Works the pending names off. In the end everything wanted, and everything a copied
        library needs, exists or is reported unknown; nothing is copied that the wanted
        names do not lead to; a link leads nowhere exactly if its target is unknown, which
        cannot be when every library can be found by its own name. */
    method ProcessSyslib(wanted: seq<string>, ghost names: set<string>)
      requires Distinct(wanted) && forall x :: x in wanted ==> x !in st.existed && x in names
      requires st.unknown == [] && st.copied == map[] && st.links == map[] && ClosedSet(w, Within(names))
      modifies this
      ensures st.libs == [] && forall x :: x in wanted ==> Known(st, x)
      ensures forall r, n :: r in st.copied && n in w.needed(st.copied[r]) ==> Known(st, n)
      ensures forall r :: r in st.copied ==> exists l :: l in names && w.find(l) == Some(File(r, st.copied[r]))
      ensures forall l :: l in st.links ==> (st.links[l] !in st.existed <==> st.links[l] in st.unknown)
      ensures (forall l :: Resolves(w, l)) ==> forall l :: !Dangles(st, l)
      ensures Accounted(w, st, old(st.existed)) && Apart(st)
      ensures old(st.ldso).None? ==>
        (st.ldso.Some? <==> exists r :: r in st.copied && w.interpreter(st.copied[r]).Some?) &&
        (st.ldso.Some? ==> Known(st, st.ldso.value) && exists r :: r in st.copied && w.interpreter(st.copied[r]) == st.ldso)
    {
      ghost var first, noLoader := st.existed, st.ldso.None?;
      st := st.(libs := wanted);
      while st.libs != []
        invariant Good(w, st, first, Within(names))
        invariant forall x :: x in wanted ==> Seen(st, x)
        invariant noLoader ==> LoaderServed(w, st)
        decreases Unsettled(names, st)
      {
        ghost var before := st;
        var lib := st.libs[0];
        StepKeeps(w, st, first, Within(names));
        if noLoader { StepServesLoader(w, st, first, Within(names)); }
        var found := w.find(lib);
        if found.None? {
          st := st.(unknown := st.unknown + [lib], libs := Remove(st.libs, lib));
        } else {
          var f := found.value;
          if f.base !in st.existed && f.base !in st.unknown {
            CopyLibrary(f);
          }
          if lib != f.base {
            st := st.(links := st.links[lib := f.base], existed := st.existed + [lib], libs := Remove(st.libs, lib));
          }
        }
        assert st == Step(w, before);
        assert lib in Unsettled(names, before) && lib !in Unsettled(names, st);
      }
      forall l | Dangles(st, l) ensures !Resolves(w, l) { DanglingIsUnresolved(w, st, first, Within(names), l); }
      forall r, n | r in st.copied && n in w.needed(st.copied[r]) ensures Known(st, n) {
        assert ServedFile(w, st, st.copied[r]) && Seen(st, n);
      }
    }
  }
}
