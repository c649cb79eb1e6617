/** Quoting of string values in the configuration file: the writer fills a buffer of
    exactly the right size, the reader removes the quoting in place. */
module Escape {
  import opened Exprs

  predicate Special(c: char) { c == '\"' || c == '\\' }

  function EscapeChar(c: char): string { if Special(c) then ['\\', c] else [c] }

  function EscapeBody(s: string): string {
    if s == "" then "" else EscapeChar(s[0]) + EscapeBody(s[1..])
  }

  /** A string value as it stands in the file. */
  function Quote(s: string): string { "\"" + EscapeBody(s) + "\"" }

  function Prepend(a: string, b: Option<string>): Option<string> {
    if b.None? then None else Some(a + b.value)
  }

  /** The text up to the closing quote, without backslashes; none if it never closes. */
  function Unescape(s: string): Option<string> {
    if s == "" then None
    else if s[0] == '\"' then Some("")
    else if s[0] != '\\' then Prepend([s[0]], Unescape(s[1..]))
    else if |s| == 1 then None
    else Prepend([s[1]], Unescape(s[2..]))
  }

  /** Reading undoes quoting, whatever stands after the closing quote. */
  lemma {:induction false} UnescapeUndoesQuote(s: string, tail: string)
    ensures Quote(s) + tail == ['\"'] + (EscapeBody(s) + ['\"'] + tail)
    ensures Unescape(EscapeBody(s) + ['\"'] + tail) == Some(s)
  {
    if s != "" {
      UnescapeUndoesQuote(s[1..], tail);
      var rest := EscapeBody(s[1..]) + ['\"'] + tail;
      var all := EscapeBody(s) + ['\"'] + tail;
      if Special(s[0]) {
        assert all == ['\\', s[0]] + rest;
        assert all[2..] == rest;
      } else {
        assert all == [s[0]] + rest;
        assert all[1..] == rest;
      }
      assert [s[0]] + s[1..] == s;
    }
  }

  /** Different values have different quotings. */
  lemma QuoteIsInjective(s: string, t: string)
    requires Quote(s) == Quote(t)
    ensures s == t
  {
    UnescapeUndoesQuote(s, "");
    UnescapeUndoesQuote(t, "");
    assert Quote(s)[1..] == EscapeBody(s) + ['\"'] + "" && Quote(t)[1..] == EscapeBody(t) + ['\"'] + "";
  }

  predicate Clean(s: string) { '\0' !in s }

  lemma AppendAssociates(x: string, a: string, b: string)
    ensures x + (a + b) == x + a + b
  {
  }

  lemma {:induction false} EscapeBodyConcat(s: string, t: string)
    ensures EscapeBody(s + t) == EscapeBody(s) + EscapeBody(t)
  {
    if s == "" {
      assert s + t == t;
    } else {
      EscapeBodyConcat(s[1..], t);
      assert (s + t)[0] == s[0] && (s + t)[1..] == s[1..] + t;
      AppendAssociates(EscapeChar(s[0]), EscapeBody(s[1..]), EscapeBody(t));
    }
  }

  lemma {:induction false} PlainIsNotEscaped(s: string)
    requires forall c :: c in s ==> !Special(c)
    ensures EscapeBody(s) == s
  {
    if s != "" { PlainIsNotEscaped(s[1..]); }
  }

  // ----- the buffers -----

  /** The buffer holds the C string `text` at offset `at`. */
  ghost predicate Holds(buf: array<char>, at: nat, text: string)
    reads buf
  {
    at + |text| < buf.Length && buf[at..at + |text|] == text && buf[at + |text|] == '\0' && Clean(text)
  }

  /** The first position from `p` on with a special character, or the end. */
  method SpanPlain(s: string, p: nat) returns (q: nat)
    requires p <= |s|
    ensures p <= q <= |s| && (q < |s| ==> Special(s[q])) && forall c :: c in s[p..q] ==> !Special(c)
  {
    q := p;
    while q < |s| && !Special(s[q])
      invariant p <= q <= |s| && forall c :: c in s[p..q] ==> !Special(c)
    {
      assert s[p..q + 1] == s[p..q] + [s[q]];
      q := q + 1;
    }
  }

  /** Appends to the C string in a buffer that has room for it. */
  method Append(buf: array<char>, ghost text: string, piece: string)
    requires Holds(buf, 0, text) && Clean(piece) && |text| + |piece| < buf.Length
    modifies buf
    ensures Holds(buf, 0, text + piece)
  {
    var n := Length(buf, 0, text);
    for i := 0 to |piece|
      invariant buf[..n] == text && buf[n..n + i] == piece[..i]
    {
      buf[n + i] := piece[i];
    }
    buf[n + |piece|] := '\0';
    assert buf[0..n + |piece|] == buf[..n] + buf[n..n + |piece|];
  }

  /** What the writer has produced once it has read up to `p`. */
  function Written(s: string, p: nat): (r: string)
    requires p <= |s|
  {
    "\"" + EscapeBody(s[..p])
  }

  lemma PrefixSplits(s: string, p: nat, q: nat)
    requires p <= q <= |s|
    ensures s[..p] + s[p..q] == s[..q]
  {
  }

  lemma WrittenMore(s: string, p: nat, q: nat)
    requires p <= q <= |s|
    ensures Written(s, q) == Written(s, p) + EscapeBody(s[p..q])
  {
    PrefixSplits(s, p, q);
    EscapeBodyConcat(s[..p], s[p..q]);
    AppendAssociates("\"", EscapeBody(s[..p]), EscapeBody(s[p..q]));
  }

  lemma WrittenPlain(s: string, p: nat, q: nat)
    requires p <= q <= |s| && forall c :: c in s[p..q] ==> !Special(c)
    ensures Written(s, q) == Written(s, p) + s[p..q]
  {
    PlainIsNotEscaped(s[p..q]);
    WrittenMore(s, p, q);
  }

  lemma WrittenSpecial(s: string, q: nat)
    requires q < |s| && Special(s[q])
    ensures Written(s, q + 1) == Written(s, q) + "\\" + [s[q]]
  {
    WrittenMore(s, q, q + 1);
    assert s[q..q + 1] == [s[q]] && [s[q]][1..] == [];
    assert EscapeBody([s[q]]) == "\\" + [s[q]];
    AppendAssociates(Written(s, q), "\\", [s[q]]);
  }

  lemma WrittenFits(s: string, p: nat)
    requires p <= |s|
    ensures |Written(s, p)| < |Quote(s)| && Written(s, |s|) + "\"" == Quote(s)
  {
    EscapeBodyConcat(s[..p], s[p..]);
    assert s[..p] + s[p..] == s && s[..|s|] == s;
  }

  /** The quoted value in a fresh buffer with not one character to spare. */
  method EscapeStringValue(s: string) returns (out: array<char>)
    requires Clean(s)
    ensures fresh(out) && Holds(out, 0, Quote(s)) && out.Length == |Quote(s)| + 1
  {
    var len := QuotedLength(s);
    out := new char[len];
    out[0] := '\0';
    Append(out, "", "\"");
    var p := 0;
    assert Written(s, 0) == "\"";
    while true
      invariant p <= |s| && Holds(out, 0, Written(s, p))
      decreases |s| - p
    {
      var q := SpanPlain(s, p);
      AppendPlain(out, s, p, q);
      if q == |s| {
        break;
      }
      AppendSpecial(out, s, q);
      p := q + 1;
    }
    WrittenFits(s, p);
    Append(out, Written(s, |s|), "\"");
  }

  method AppendPlain(out: array<char>, s: string, p: nat, q: nat)
    requires Clean(s) && p <= q <= |s| && forall c :: c in s[p..q] ==> !Special(c)
    requires Holds(out, 0, Written(s, p)) && out.Length == |Quote(s)| + 1
    modifies out
    ensures Holds(out, 0, Written(s, q))
  {
    WrittenPlain(s, p, q);
    WrittenFits(s, q);
    Append(out, Written(s, p), s[p..q]);
  }

  method AppendSpecial(out: array<char>, s: string, q: nat)
    requires Clean(s) && q < |s| && Special(s[q]) && Holds(out, 0, Written(s, q)) && out.Length == |Quote(s)| + 1
    modifies out
    ensures Holds(out, 0, Written(s, q + 1))
  {
    WrittenSpecial(s, q);
    WrittenFits(s, q + 1);
    Append(out, Written(s, q), "\\");
    Append(out, Written(s, q) + "\\", [s[q]]);
  }

  /** The size of the buffer: two quotes, the terminator, a backslash per special character. */
  method QuotedLength(s: string) returns (len: nat)
    ensures len == |Quote(s)| + 1
  {
    len := |s| + 3;
    var p := 0;
    while true
      invariant p <= |s| && len == 2 + |Written(s, p)| + |s| - p
      decreases |s| - p
    {
      var q := SpanPlain(s, p);
      WrittenPlain(s, p, q);
      if q == |s| {
        WrittenFits(s, q);
        break;
      }
      WrittenSpecial(s, q);
      len := len + 1;
      p := q + 1;
    }
  }

  /** Moves `n` characters one place down. */
  method MoveDown(buf: array<char>, to: nat, n: nat)
    requires to + n < buf.Length
    modifies buf
    ensures buf[to..to + n] == old(buf[to + 1..to + 1 + n])
    ensures forall i :: 0 <= i < buf.Length && (i < to || to + n <= i) ==> buf[i] == old(buf[i])
  {
    for i := 0 to n
      invariant buf[to..to + i] == old(buf[to + 1..to + 1 + i])
      invariant forall k :: 0 <= k < buf.Length && (k < to || to + i <= k) ==> buf[k] == old(buf[k])
    {
      buf[to + i] := buf[to + i + 1];
    }
  }

  lemma PrependMore(a: string, c: char, b: Option<string>)
    ensures Prepend("", b) == b && Prepend(a, Prepend([c], b)) == Prepend(a + [c], b)
  {
    if b.Some? {
      assert "" + b.value == b.value && a + ([c] + b.value) == a + [c] + b.value;
    }
  }

  /** Reading goes on with the character under the cursor, or after a backslash with the next. */
  lemma {:induction false} UnescapeStep(done: string, rest: string)
    ensures rest != "" && rest[0] == '\"' ==> Prepend(done, Unescape(rest)) == Some(done)
    ensures rest != "" && !Special(rest[0]) ==> Prepend(done, Unescape(rest)) == Prepend(done + [rest[0]], Unescape(rest[1..]))
    ensures |rest| > 1 && rest[0] == '\\' ==> Prepend(done, Unescape(rest)) == Prepend(done + [rest[1]], Unescape(rest[2..]))
  {
    if rest != "" && !Special(rest[0]) {
      PrependMore(done, rest[0], Unescape(rest[1..]));
    } else if |rest| > 1 && rest[0] == '\\' {
      PrependMore(done, rest[1], Unescape(rest[2..]));
    } else {
      assert done + "" == done;
    }
  }

  lemma HoldsNext(buf: array<char>, p: nat, rest: string)
    requires Holds(buf, p, rest)
    ensures rest == "" ==> buf[p] == '\0'
    ensures rest != "" ==> buf[p] == rest[0] && buf[p] != '\0' && Holds(buf, p + 1, rest[1..])
  {
    if rest != "" {
      assert buf[p..p + |rest|][0] == rest[0];
      assert buf[p + 1..p + |rest|] == buf[p..p + |rest|][1..];
    }
  }

  /** Drops the first character of the C string at `p`. */
  method DropFirst(buf: array<char>, p: nat, ghost rest: string)
    requires Holds(buf, p, rest) && rest != ""
    modifies buf
    ensures Holds(buf, p, rest[1..])
    ensures forall i :: 0 <= i < buf.Length && (i < p || p + |rest| <= i) ==> buf[i] == old(buf[i])
  {
    HoldsNext(buf, p, rest);
    var n := Length(buf, p, rest);
    MoveDown(buf, p, n);
    assert buf[p..p + n][n - 1] == '\0';
    assert buf[p..p + n - 1] == buf[p..p + n][..n - 1] == rest[1..];
  }

  /** The text done so far stands before the cursor and the C string still to read behind it. */
  ghost predicate Reading(buf: array<char>, start: nat, p: nat, done: string, rest: string)
    reads buf
  {
    p == start + |done| && Clean(done) && Holds(buf, p, rest) && buf[start..p] == done
  }

  lemma ReadOne(buf: array<char>, start: nat, p: nat, done: string, rest: string)
    requires Reading(buf, start, p, done, rest) && rest != ""
    ensures buf[p] == rest[0] && Reading(buf, start, p + 1, done + [rest[0]], rest[1..])
  {
    HoldsNext(buf, p, rest);
    assert buf[start..p + 1] == buf[start..p] + [buf[p]];
  }

  method Skip(buf: array<char>, start: nat, p: nat, ghost done: string, ghost rest: string)
    requires Reading(buf, start, p, done, rest) && rest != ""
    modifies buf
    ensures Reading(buf, start, p, done, rest[1..]) && buf[p + |rest|] == old(buf[p + |rest|])
    ensures forall i :: 0 <= i < buf.Length && (i < start || p + |rest| <= i) ==> buf[i] == old(buf[i])
  {
    DropFirst(buf, p, rest);
    assert buf[start..p] == done;
  }

  method SkipWithin(buf: array<char>, start: nat, p: nat, ghost done: string, ghost rest: string, ghost end: nat)
    requires Reading(buf, start, p, done, rest) && rest != "" && p + |rest| <= end < buf.Length
    modifies buf
    ensures Reading(buf, start, p, done, rest[1..]) && buf[p + |rest|] == old(buf[p + |rest|])
    ensures forall i :: 0 <= i < buf.Length && (i < start || end <= i) ==> buf[i] == old(buf[i])
  {
    Skip(buf, start, p, done, rest);
  }

  method Close(buf: array<char>, start: nat, p: nat, ghost done: string, ghost rest: string)
    requires Reading(buf, start, p, done, rest) && rest != ""
    modifies buf
    ensures Holds(buf, start, done)
    ensures forall i :: 0 <= i < buf.Length && i != p ==> buf[i] == old(buf[i])
  {
    buf[p] := '\0';
    assert buf[start..p] == done;
  }

  /** What one step of reading makes of the text done and the text still to read. */
  function Advanced(done: string, rest: string): (string, string)
    requires rest != ""
  {
    if rest[0] == '\\' && |rest| > 1 then (done + [rest[1]], rest[2..]) else (done + [rest[0]], rest[1..])
  }

  /** With `done` read and `rest` to go, the outcome is `target`. */
  predicate Leads(done: string, rest: string, target: Option<string>) { Prepend(done, Unescape(rest)) == target }

  lemma UnescapeAdvances(done: string, rest: string, target: Option<string>)
    requires Leads(done, rest, target)
    ensures rest == "" || rest == "\\" ==> target == None
    ensures rest != "" && rest[0] == '\"' ==> target == Some(done)
    ensures rest != "" && rest[0] != '\"' && rest != "\\" ==> Leads(Advanced(done, rest).0, Advanced(done, rest).1, target)
  {
    UnescapeStep(done, rest);
  }

  /** Takes in the character at `p`, or the one after a backslash there; false at the end
      of the string. */
  method Advance(buf: array<char>, start: nat, p: nat, ghost done: string, ghost rest: string, ghost end: nat) returns (more: bool)
    requires Reading(buf, start, p, done, rest) && p + |rest| <= end < buf.Length && rest != "" && rest[0] != '\"'
    modifies buf
    ensures more <==> rest != "\\"
    ensures more ==> Reading(buf, start, p + 1, Advanced(done, rest).0, Advanced(done, rest).1)
    ensures forall i :: 0 <= i < buf.Length && (i < start || end <= i) ==> buf[i] == old(buf[i])
  {
    HoldsNext(buf, p, rest);
    ghost var left := rest;
    if buf[p] == '\\' {
      SkipWithin(buf, start, p, done, rest, end);
      left := rest[1..];
      HoldsNext(buf, p, left);
      if buf[p] == '\0' {
        // The source goes on one character further, where the old terminator still is.
        return buf[p + 1] != '\0';
      }
    }
    ReadOne(buf, start, p, done, left);
    more := true;
  }

  /** One round of reading: ends at the closing quote or at the end of the string, or
      takes in one more character. */
  method ReadRound(buf: array<char>, start: nat, p: nat, ghost done: string, ghost rest: string, ghost end: nat, ghost target: Option<string>)
    returns (more: bool, ok: bool)
    requires Reading(buf, start, p, done, rest) && p + |rest| <= end < buf.Length && Leads(done, rest, target)
    modifies buf
    ensures more ==> rest != "" && Reading(buf, start, p + 1, Advanced(done, rest).0, Advanced(done, rest).1)
    ensures more ==> Leads(Advanced(done, rest).0, Advanced(done, rest).1, target)
    ensures !more ==> (ok <==> target.Some?) && (ok ==> Holds(buf, start, target.value))
    ensures forall i :: 0 <= i < buf.Length && (i < start || end <= i) ==> buf[i] == old(buf[i])
  {
    HoldsNext(buf, p, rest);
    UnescapeAdvances(done, rest, target);
    if buf[p] == '\0' {
      return false, false;
    }
    if buf[p] == '\"' {
      Close(buf, start, p, done, rest);
      return false, true;
    }
    more := Advance(buf, start, p, done, rest, end);
    ok := false;
  }

  /** Removes the quoting of the C string at `start` in place. Fails if no quote closes it;
      never looks past the end of the original string. */
  method UnescapeInPlace(buf: array<char>, start: nat, ghost s: string) returns (ok: bool)
    requires Holds(buf, start, s)
    modifies buf
    ensures ok <==> Unescape(s).Some?
    ensures ok ==> Holds(buf, start, Unescape(s).value)
    ensures forall i :: 0 <= i < buf.Length && (i < start || start + |s| <= i) ==> buf[i] == old(buf[i])
  {
    var p: nat := start;
    ghost var done, rest := "", s;
    ghost var target, end := Unescape(s), start + |s|;
    PrependMore("", 'x', target);
    while true
      invariant Reading(buf, start, p, done, rest) && p + |rest| <= end && Leads(done, rest, target)
      invariant forall i :: 0 <= i < buf.Length && (i < start || end <= i) ==> buf[i] == old(buf[i])
      decreases |rest|
    {
      var more;
      more, ok := ReadRound(buf, start, p, done, rest, end, target);
      if !more {
        return;
      }
      p := p + 1;
      done, rest := Advanced(done, rest).0, Advanced(done, rest).1;
    }
  }

  /** The length of the C string at `p`. */
  method Length(buf: array<char>, p: nat, ghost text: string) returns (n: nat)
    requires Holds(buf, p, text)
    ensures n == |text|
  {
    n := 0;
    assert forall k :: 0 <= k < |text| ==> buf[p..p + |text|][k] == text[k];
    while buf[p + n] != '\0'
      invariant n <= |text|
      decreases |text| - n
    {
      n := n + 1;
    }
  }
}
