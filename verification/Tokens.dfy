/** strspn, strpbrk, strtok and strsep of string.c.  A string lives in a buffer from `base` on and
    ends at its first NUL; both tokenisers cut it by overwriting delimiters with NUL, so only the
    part behind the cursor is still the original text. */
module Tokens {

  type Text = seq<char>

  datatype Pointer = Null | To(index: nat)

  /** From position i on, memory still holds the text t that starts at base. */
  ghost predicate Rest(mem: seq<char>, base: nat, t: Text, i: int)
  {
    && 0 <= i <= |t| && base + |t| < |mem| && '\0' !in t && mem[base + |t|] == '\0'
    && forall q :: base + i <= q < base + |t| ==> mem[q] == t[q - base]
  }

  /** A NUL-terminated string of its own. */
  ghost predicate Holds(mem: seq<char>, p: nat, s: Text)
  {
    && p + |s| < |mem| && mem[p + |s|] == '\0' && '\0' !in s
    && mem[p..p + |s|] == s
  }

  // ---- spans of a text ----

  /** The first position from i on that is not a delimiter. */
  function Skip(t: Text, i: nat, ct: Text): (j: nat)
    requires i <= |t|
    ensures i <= j <= |t|
    ensures forall k :: i <= k < j ==> t[k] in ct
    ensures j < |t| ==> t[j] !in ct
    decreases |t| - i
  {
    if i < |t| && t[i] in ct then Skip(t, i + 1, ct) else i
  }

  /** The first delimiter from i on, or the end. */
  function Stop(t: Text, i: nat, ct: Text): (j: nat)
    requires i <= |t|
    ensures i <= j <= |t|
    ensures forall k :: i <= k < j ==> t[k] !in ct
    ensures j < |t| ==> t[j] in ct
    decreases |t| - i
  {
    if i < |t| && t[i] !in ct then Stop(t, i + 1, ct) else i
  }

  type Span = (nat, nat)

  /** Tokens: what lies between runs of delimiters. */
  function TokenSpans(t: Text, i: nat, ct: Text): seq<Span>
    requires i <= |t|
    decreases |t| - i
  {
    var a := Skip(t, i, ct);
    if a == |t| then [] else [(a, Stop(t, a, ct))] + TokenSpans(t, Stop(t, a, ct), ct)
  }

  /** Fields: what lies between single delimiters, empty ones included. */
  function FieldSpans(t: Text, i: nat, ct: Text): (r: seq<Span>)
    requires i <= |t|
    ensures |r| >= 1
    decreases |t| - i
  {
    var e := Stop(t, i, ct);
    if e == |t| then [(i, e)] else [(i, e)] + FieldSpans(t, e + 1, ct)
  }

  /** A maximal nonempty delimiter-free run. */
  ghost predicate MaximalRun(t: Text, s: Span, ct: Text)
  {
    && s.0 < s.1 <= |t|
    && (forall k :: s.0 <= k < s.1 ==> t[k] !in ct)
    && (s.0 == 0 || t[s.0 - 1] in ct)
    && (s.1 == |t| || t[s.1] in ct)
  }

  /** The tokens are the maximal runs, all of them and in order. */
  lemma {:induction false} TokensAreMaximalRuns(t: Text, i: nat, ct: Text)
    requires i <= |t| && (i == 0 || i == |t| || t[i] in ct || t[i - 1] in ct)
    ensures forall s :: s in TokenSpans(t, i, ct) <==> MaximalRun(t, s, ct) && i <= s.0
    ensures forall j, k :: 0 <= j < k < |TokenSpans(t, i, ct)| ==>
      TokenSpans(t, i, ct)[j].1 < TokenSpans(t, i, ct)[k].0
    decreases |t| - i
  {
    var a := Skip(t, i, ct);
    if a < |t| {
      var e := Stop(t, a, ct);
      TokensAreMaximalRuns(t, e, ct);
      assert MaximalRun(t, (a, e), ct);
      var rest := TokenSpans(t, e, ct);
      forall s: Span | MaximalRun(t, s, ct) && i <= s.0
        ensures s == (a, e) || s in rest
      {
        RunsDisjoint(t, s, (a, e), ct);
        assert t[s.0] !in ct;
      }
      assert forall s :: s in rest ==> e < s.0 by {
        forall s | s in rest
          ensures e < s.0
        {
          assert t[s.0] !in ct;
        }
      }
      PrependSpan((a, e), rest);
      assert TokenSpans(t, i, ct) == [(a, e)] + rest;
    } else {
      forall s: Span | MaximalRun(t, s, ct)
        ensures s.0 < i
      {
        assert t[s.0] !in ct;
      }
    }
  }

  lemma PrependSpan(s: Span, rest: seq<Span>)
    requires forall r :: r in rest ==> s.1 < r.0
    requires forall j, k :: 0 <= j < k < |rest| ==> rest[j].1 < rest[k].0
    ensures forall j, k :: 0 <= j < k < |[s] + rest| ==> ([s] + rest)[j].1 < ([s] + rest)[k].0
    ensures forall r :: r in [s] + rest <==> r == s || r in rest
  {
    var all := [s] + rest;
    forall j, k | 0 <= j < k < |all|
      ensures all[j].1 < all[k].0
    {
      assert all[k] == rest[k - 1];
      if j > 0 {
        assert all[j] == rest[j - 1];
      }
    }
  }

  lemma RunsDisjoint(t: Text, s: Span, r: Span, ct: Text)
    requires MaximalRun(t, s, ct) && MaximalRun(t, r, ct)
    ensures s == r || s.1 < r.0 || r.1 < s.0
  {
  }

  // ---- putting fields back together ----

  function Texts(t: Text, spans: seq<Span>): seq<Text>
    requires forall s :: s in spans ==> s.0 <= s.1 <= |t|
  {
    if spans == [] then [] else assert spans[0] in spans; [t[spans[0].0..spans[0].1]] + Texts(t, spans[1..])
  }

  /** Fields and the delimiters between them, joined. */
  function Rejoin(fields: seq<Text>, seps: Text): Text
    requires |fields| == |seps| + 1
  {
    if seps == "" then fields[0] else fields[0] + [seps[0]] + Rejoin(fields[1..], seps[1..])
  }

  /** The delimiters of a text, in order: what strsep overwrites. */
  function Delimiters(t: Text, i: nat, ct: Text): Text
    requires i <= |t|
    decreases |t| - i
  {
    var e := Stop(t, i, ct);
    if e == |t| then "" else [t[e]] + Delimiters(t, e + 1, ct)
  }

  lemma {:induction false} FieldsInRange(t: Text, i: nat, ct: Text)
    requires i <= |t|
    ensures forall s :: s in FieldSpans(t, i, ct) ==> i <= s.0 <= s.1 <= |t|
    ensures |FieldSpans(t, i, ct)| == |Delimiters(t, i, ct)| + 1
    decreases |t| - i
  {
    var e := Stop(t, i, ct);
    if e < |t| {
      FieldsInRange(t, e + 1, ct);
    }
  }

  /** No field contains a delimiter. */
  lemma {:induction false} FieldsClean(t: Text, i: nat, ct: Text)
    requires i <= |t|
    ensures forall s, k :: s in FieldSpans(t, i, ct) && s.0 <= k < s.1 ==> 0 <= k < |t| && t[k] !in ct
    decreases |t| - i
  {
    var e := Stop(t, i, ct);
    FieldsInRange(t, i, ct);
    if e < |t| {
      FieldsClean(t, e + 1, ct);
      assert FieldSpans(t, i, ct) == [(i, e)] + FieldSpans(t, e + 1, ct);
    }
  }

  /** With the overwritten delimiters between them the fields are the text again. */
  lemma {:induction false} FieldsRejoin(t: Text, i: nat, ct: Text)
    requires i <= |t|
    ensures forall s :: s in FieldSpans(t, i, ct) ==> i <= s.0 <= s.1 <= |t|
    ensures |Texts(t, FieldSpans(t, i, ct))| == |Delimiters(t, i, ct)| + 1
    ensures Rejoin(Texts(t, FieldSpans(t, i, ct)), Delimiters(t, i, ct)) == t[i..]
    decreases |t| - i
  {
    FieldsInRange(t, i, ct);
    var e := Stop(t, i, ct);
    if e < |t| {
      FieldsInRange(t, e + 1, ct);
      FieldsRejoin(t, e + 1, ct);
      RejoinStep(t, i, e, FieldSpans(t, e + 1, ct), Delimiters(t, e + 1, ct));
    } else {
      assert FieldSpans(t, i, ct)[1..] == [];
      assert t[i..] == t[i..e];
    }
  }

  lemma RejoinStep(t: Text, i: nat, e: nat, rest: seq<Span>, seps: Text)
    requires i <= e < |t| && forall s :: s in rest ==> s.0 <= s.1 <= |t|
    requires |Texts(t, rest)| == |seps| + 1 && Rejoin(Texts(t, rest), seps) == t[e + 1..]
    ensures forall s :: s in [(i, e)] + rest ==> s.0 <= s.1 <= |t|
    ensures |Texts(t, [(i, e)] + rest)| == |[t[e]] + seps| + 1
    ensures Rejoin(Texts(t, [(i, e)] + rest), [t[e]] + seps) == t[i..]
  {
    var spans, all := [(i, e)] + rest, [t[e]] + seps;
    assert spans[1..] == rest && all[1..] == seps;
    var texts := Texts(t, spans);
    assert texts == [t[i..e]] + Texts(t, rest);
    assert texts[1..] == Texts(t, rest);
    assert t[i..] == t[i..e] + [t[e]] + t[e + 1..];
  }

  // ---- the code ----

  /** The inner loop of strspn and strpbrk: is c one of the delimiters? */
  method Among(c: char, ct: Text) returns (found: bool)
    ensures found <==> c in ct
  {
    var a := 0;
    while a < |ct|
      invariant 0 <= a <= |ct| && c !in ct[..a]
    {
      if c == ct[a] {
        return true;
      }
      a := a + 1;
    }
    return false;
  }

  method StrSpn(buf: array<char>, p: nat, ct: Text, ghost base: nat, ghost t: Text) returns (count: nat)
    requires base <= p && Rest(buf[..], base, t, p - base)
    ensures p + count == base + Skip(t, p - base, ct)
  {
    count := 0;
    NoNul(buf[..], base, t, p - base);
    while buf[p + count] != '\0'
      invariant p + count <= base + |t|
      invariant Skip(t, p - base, ct) == Skip(t, p - base + count, ct)
      decreases base + |t| - (p + count)
    {
      assert buf[..][p + count] == t[p - base + count];
      var found := Among(buf[p + count], ct);
      if !found {
        return;
      }
      count := count + 1;
    }
  }

  lemma NoNul(mem: seq<char>, base: nat, t: Text, i: int)
    requires Rest(mem, base, t, i)
    ensures forall q :: base + i <= q < base + |t| ==> mem[q] != '\0'
  {
    forall q | base + i <= q < base + |t|
      ensures mem[q] != '\0'
    {
      assert mem[q] == t[q - base] && t[q - base] in t;
    }
  }

  method StrPbrk(buf: array<char>, p: nat, ct: Text, ghost base: nat, ghost t: Text) returns (r: Pointer)
    requires base <= p && Rest(buf[..], base, t, p - base)
    ensures var e := Stop(t, p - base, ct); r == if e == |t| then Null else To(base + e)
  {
    var sc := p;
    NoNul(buf[..], base, t, p - base);
    while buf[sc] != '\0'
      invariant p <= sc <= base + |t|
      invariant Stop(t, p - base, ct) == Stop(t, sc - base, ct)
      decreases base + |t| - sc
    {
      assert buf[..][sc] == t[sc - base];
      var found := Among(buf[sc], ct);
      if found {
        return To(sc);
      }
      sc := sc + 1;
    }
    return Null;
  }

  /** strtok, with its static cursor ___strtok. */
  class Tokenizer {
    var saved: Pointer

    constructor ()
      ensures saved == Null
    {
      saved := Null;
    }

    /** One call.  The cursor, new or saved, is somewhere in the text t that starts at base. */
    method StrTok(buf: array<char>, s: Pointer, ct: Text, ghost base: nat, ghost t: Text) returns (tok: Pointer)
      requires '\0' !in ct
      requires var begin := if s.To? then s else saved;
        begin.To? ==> base <= begin.index && Rest(buf[..], base, t, begin.index - base)
      modifies this, buf
      ensures (if s.To? then s else old(saved)).Null? ==>
        tok == Null && saved == old(saved) && buf[..] == old(buf[..])
      ensures (if s.To? then s else old(saved)).To? ==>
        Called(old(buf[..]), buf[..], base, t, ct, (if s.To? then s else old(saved)).index - base, tok, saved)
    {
      var begin := if s.To? then s else saved;
      if begin.Null? {
        return Null;
      }
      var p := begin.index;
      NoNul(buf[..], base, t, p - base);
      var skipped := StrSpn(buf, p, ct, base, t);
      p := p + skipped;
      if buf[p] == '\0' {
        saved := Null;
        return Null;
      }
      var send := StrPbrk(buf, p, ct, base, t);
      if send.To? && buf[send.index] != '\0' {
        buf[send.index] := '\0';
        send := To(send.index + 1);
      }
      saved := send;
      return To(p);
    }

    /** One call with the cursor, given or saved, at position i of the text or exhausted. */
    method NextToken(buf: array<char>, s: Pointer, ct: Text, ghost base: nat, ghost t: Text, ghost i: nat,
                     ghost done: seq<Span>, ghost toks: seq<nat>)
      returns (tok: Pointer)
      requires '\0' !in ct && Rest(buf[..], base, t, i) && Finished(buf[..], base, t, i, done, toks)
      requires var begin := if s.To? then s else saved;
        begin == To(base + i) || (begin == Null && i == |t|)
      modifies this, buf
      ensures Pending(buf[..], base, t, ct, i, tok, saved)
      ensures Finished(buf[..], base, t, i, done, toks)
      ensures SameOutside(old(buf[..]), buf[..], base, t)
    {
      ghost var was := buf[..];
      tok := StrTok(buf, s, ct, base, t);
      CallFrom(was, buf[..], base, t, ct, i, tok, saved);
      KeepFinished(was, buf[..], base, t, i, Stop(t, Skip(t, i, ct), ct), done, toks);
    }

    /** A whole run: strtok(s) and then strtok(NULL) until it returns NULL.  The results are the
        strings of exactly the token spans, in order. */
    method Tokenize(buf: array<char>, base: nat, ct: Text, ghost t: Text) returns (toks: seq<nat>)
      requires '\0' !in ct && Rest(buf[..], base, t, 0)
      modifies this, buf
      ensures saved == Null
      ensures Finished(buf[..], base, t, |t|, TokenSpans(t, 0, ct), toks)
      ensures SameOutside(old(buf[..]), buf[..], base, t)
    {
      ghost var done: seq<Span> := [];
      ghost var i: nat := 0;
      toks := [];
      var tok := NextToken(buf, To(base), ct, base, t, i, done, toks);
      while tok.To?
        invariant 0 <= i <= |t| && Pending(buf[..], base, t, ct, i, tok, saved)
        invariant TokenSpans(t, 0, ct) == done + TokenSpans(t, i, ct)
        invariant Finished(buf[..], base, t, i, done, toks)
        invariant SameOutside(old(buf[..]), buf[..], base, t)
        decreases |t| - i
      {
        SpansStep(t, i, ct, done);
        AddFinished(buf[..], base, t, ct, i, done, toks, tok.index, saved);
        toks := toks + [tok.index];
        done, i := done + [NextSpan(t, i, ct)], Behind(t, NextSpan(t, i, ct).1);
        tok := NextToken(buf, Null, ct, base, t, i, done, toks);
      }
      assert TokenSpans(t, i, ct) == [] && done + [] == done;
      LastFinished(buf[..], base, t, i, done, toks);
    }
  }

  ghost function NextSpan(t: Text, i: nat, ct: Text): Span
    requires i <= |t|
  {
    (Skip(t, i, ct), Stop(t, Skip(t, i, ct), ct))
  }

  /** The position behind the delimiter at e. */
  ghost function Behind(t: Text, e: nat): nat { if e >= |t| then |t| else e + 1 }

  /** A call made from position i cuts at most the end of the next token. */
  ghost predicate Called(was: seq<char>, now: seq<char>, base: nat, t: Text, ct: Text, i: nat, tok: Pointer,
                         saved: Pointer)
    requires i <= |t| && base + |t| < |was|
  {
    var a := Skip(t, i, ct);
    if a == |t| then tok == Null && saved == Null && now == was
    else
      var e := Stop(t, a, ct);
      && tok == To(base + a) && saved == (if e == |t| then Null else To(base + e + 1))
      && now == (if e == |t| then was else was[base + e := '\0'])
  }

  /** The result of a call made from position i, and the cursor and memory it leaves. */
  ghost predicate Pending(mem: seq<char>, base: nat, t: Text, ct: Text, i: nat, tok: Pointer, saved: Pointer)
    requires i <= |t|
  {
    var a := Skip(t, i, ct);
    if a == |t| then tok == Null && saved == Null
    else
      var e := Stop(t, a, ct);
      && tok == To(base + a) && saved == (if e == |t| then Null else To(base + e + 1))
      && Holds(mem, base + a, t[a..e])
      && Rest(mem, base, t, if e == |t| then e else e + 1)
  }

  lemma CallFrom(was: seq<char>, now: seq<char>, base: nat, t: Text, ct: Text, i: nat, tok: Pointer, saved: Pointer)
    requires Rest(was, base, t, i) && Called(was, now, base, t, ct, i, tok, saved)
    ensures Pending(now, base, t, ct, i, tok, saved)
  {
    var a := Skip(t, i, ct);
    if a < |t| {
      SliceHolds(now, base, t, a, Stop(t, a, ct));
    }
  }

  /** The tokens handed out so far lie before position i and stay what they were. */
  ghost predicate Finished(mem: seq<char>, base: nat, t: Text, i: nat, done: seq<Span>, toks: seq<nat>)
  {
    && |toks| == |done| && i <= |t|
    && forall j :: 0 <= j < |done| ==>
         var s := done[j];
         s.0 <= s.1 <= |t| && (s.1 < i || i == |t|) && toks[j] == base + s.0
         && Holds(mem, toks[j], t[s.0..s.1])
  }

  lemma LastFinished(mem: seq<char>, base: nat, t: Text, i: nat, done: seq<Span>, toks: seq<nat>)
    requires Finished(mem, base, t, i, done, toks)
    ensures Finished(mem, base, t, |t|, done, toks)
  {
  }

  /** The pending token joins the finished ones. */
  lemma AddFinished(mem: seq<char>, base: nat, t: Text, ct: Text, i: nat, done: seq<Span>, toks: seq<nat>, tok: nat,
                    saved: Pointer)
    requires Finished(mem, base, t, i, done, toks) && Pending(mem, base, t, ct, i, To(tok), saved)
    requires NextSpan(t, i, ct).0 < |t|
    ensures var s := NextSpan(t, i, ct);
      Finished(mem, base, t, Behind(t, s.1), done + [s], toks + [tok]) && Rest(mem, base, t, Behind(t, s.1))
  {
    var s := NextSpan(t, i, ct);
    var all, tokens := done + [s], toks + [tok];
    forall j | 0 <= j < |all|
      ensures tokens[j] == base + all[j].0 && Holds(mem, tokens[j], t[all[j].0..all[j].1])
    {
      if j < |done| {
        assert all[j] == done[j] && tokens[j] == toks[j];
      }
    }
  }

  /** A cut at or behind position i, or none, leaves them alone. */
  lemma KeepFinished(was: seq<char>, now: seq<char>, base: nat, t: Text, i: nat, e: nat, done: seq<Span>,
                     toks: seq<nat>)
    requires Finished(was, base, t, i, done, toks)
    requires now == was || (i <= e < |t| && base + |t| < |was| && now == was[base + e := '\0'])
    ensures Finished(now, base, t, i, done, toks)
  {
    forall j | 0 <= j < |done|
      ensures Holds(now, toks[j], t[done[j].0..done[j].1])
    {
      var s := done[j];
      assert now[toks[j]..toks[j] + (s.1 - s.0)] == was[toks[j]..toks[j] + (s.1 - s.0)];
    }
  }

  ghost predicate SameOutside(was: seq<char>, now: seq<char>, base: nat, t: Text)
  {
    |now| == |was| && forall k :: 0 <= k < |was| && !(base <= k < base + |t|) ==> now[k] == was[k]
  }

  lemma SpansStep(t: Text, i: nat, ct: Text, done: seq<Span>)
    requires i <= |t| && Skip(t, i, ct) < |t|
    ensures var s := NextSpan(t, i, ct);
      && i <= s.0 < s.1 <= |t| && i < Behind(t, s.1) <= |t|
      && done + TokenSpans(t, i, ct) == (done + [s]) + TokenSpans(t, Behind(t, s.1), ct)
  {
    var (a, e) := NextSpan(t, i, ct);
    if e < |t| {
      assert Skip(t, e, ct) == Skip(t, e + 1, ct);
      assert TokenSpans(t, e, ct) == TokenSpans(t, e + 1, ct);
    }
    assert TokenSpans(t, i, ct) == [(a, e)] + TokenSpans(t, e, ct);
  }

  // ---- strsep ----

  /** strsep: the caller's cursor s is updated; the field always starts where it stood. */
  method StrSep(buf: array<char>, s: Pointer, ct: Text, ghost base: nat, ghost t: Text)
    returns (field: Pointer, s': Pointer)
    requires s.To? ==> base <= s.index && Rest(buf[..], base, t, s.index - base)
    modifies buf
    ensures s.Null? ==> field == Null && s' == Null && buf[..] == old(buf[..])
    ensures s.To? ==>
      var e := Stop(t, s.index - base, ct);
      && field == s
      && s' == (if e == |t| then Null else To(base + e + 1))
      && buf[..] == (if e == |t| then old(buf[..]) else old(buf[..])[base + e := '\0'])
  {
    if s.Null? {
      return Null, Null;
    }
    var end := StrPbrk(buf, s.index, ct, base, t);
    if end.To? {
      buf[end.index] := '\0';
      end := To(end.index + 1);
    }
    return s, end;
  }

  /** The text with every delimiter overwritten from the front up to position i. */
  ghost predicate Cut(mem: seq<char>, base: nat, t: Text, ct: Text, i: nat)
  {
    && i <= |t| && base + |t| < |mem|
    && forall q :: base <= q < base + i ==> mem[q] == if t[q - base] in ct then '\0' else t[q - base]
  }

  /** A whole run of strsep: the fields are exactly the spans between single delimiters, empty ones
      included, and the buffer ends up with precisely the delimiters overwritten. */
  method SepAll(buf: array<char>, base: nat, ct: Text, ghost t: Text) returns (fields: seq<nat>)
    requires Rest(buf[..], base, t, 0)
    modifies buf
    ensures Finished(buf[..], base, t, |t|, FieldSpans(t, 0, ct), fields)
    ensures Cut(buf[..], base, t, ct, |t|)
    ensures SameOutside(old(buf[..]), buf[..], base, t)
  {
    var s := To(base);
    fields := [];
    ghost var done: seq<Span> := [];
    ghost var i: nat := 0;
    while s.To?
      invariant Separating(buf[..], base, t, ct, i, done, fields)
      invariant if s.To? then s == To(base + i) && FieldSpans(t, 0, ct) == done + FieldSpans(t, i, ct)
                else i == |t| && FieldSpans(t, 0, ct) == done
      invariant SameOutside(old(buf[..]), buf[..], base, t)
      decreases s.To?, |t| - i
    {
      ghost var e := Stop(t, i, ct);
      FieldSpansStep(t, i, ct, done);
      var field;
      field, s := SepNext(buf, s.index, ct, base, t, i, done, fields);
      fields, done, i := fields + [field], done + [(i, e)], Behind(t, e);
    }
  }

  /** One call, with the cursor at position i. */
  method SepNext(buf: array<char>, s: nat, ct: Text, ghost base: nat, ghost t: Text, ghost i: nat,
                 ghost done: seq<Span>, ghost fields: seq<nat>)
    returns (field: nat, s': Pointer)
    requires s == base + i && Separating(buf[..], base, t, ct, i, done, fields)
    modifies buf
    ensures field == s
    ensures var e := Stop(t, i, ct);
      && s' == (if e == |t| then Null else To(base + e + 1))
      && Separating(buf[..], base, t, ct, Behind(t, e), done + [(i, e)], fields + [s])
    ensures SameOutside(old(buf[..]), buf[..], base, t)
  {
    ghost var was, e := buf[..], Stop(t, i, ct);
    var f;
    f, s' := StrSep(buf, To(s), ct, base, t);
    field := f.index;
    assert |was| == |buf[..]|;
    SepStep(was, buf[..], base, t, ct, i, e, done, fields);
  }

  /** The state of a run of strsep with its cursor at position i. */
  ghost predicate Separating(mem: seq<char>, base: nat, t: Text, ct: Text, i: nat, done: seq<Span>,
                             fields: seq<nat>)
  {
    Rest(mem, base, t, i) && Cut(mem, base, t, ct, i) && Finished(mem, base, t, i, done, fields)
  }

  lemma SepStep(was: seq<char>, now: seq<char>, base: nat, t: Text, ct: Text, i: nat, e: nat, done: seq<Span>,
                fields: seq<nat>)
    requires Separating(was, base, t, ct, i, done, fields) && e == Stop(t, i, ct)
    requires now == if e == |t| then was else was[base + e := '\0']
    ensures Separating(now, base, t, ct, Behind(t, e), done + [(i, e)], fields + [base + i])
    ensures SameOutside(was, now, base, t)
  {
    SepMemory(was, now, base, t, ct, i, e);
    KeepFinished(was, now, base, t, i, e, done, fields);
    FieldFinished(now, base, t, i, e, done, fields);
  }

  lemma FieldSpansStep(t: Text, i: nat, ct: Text, done: seq<Span>)
    requires i <= |t|
    ensures var e := Stop(t, i, ct);
      done + FieldSpans(t, i, ct) ==
        if e == |t| then done + [(i, e)] else (done + [(i, e)]) + FieldSpans(t, e + 1, ct)
  {
    var e := Stop(t, i, ct);
    if e < |t| {
      Associate(done, [(i, e)], FieldSpans(t, e + 1, ct));
    }
  }

  lemma Associate(a: seq<Span>, b: seq<Span>, c: seq<Span>)
    ensures a + (b + c) == (a + b) + c
  {
  }

  lemma SepMemory(was: seq<char>, now: seq<char>, base: nat, t: Text, ct: Text, i: nat, e: nat)
    requires Rest(was, base, t, i) && Cut(was, base, t, ct, i) && e == Stop(t, i, ct)
    requires now == if e == |t| then was else was[base + e := '\0']
    ensures Rest(now, base, t, Behind(t, e)) && SameOutside(was, now, base, t)
    ensures Cut(now, base, t, ct, Behind(t, e)) && Holds(now, base + i, t[i..e])
  {
    SliceHolds(now, base, t, i, e);
  }

  /** A piece of the text that is still in place and is followed by a NUL. */
  lemma SliceHolds(mem: seq<char>, base: nat, t: Text, a: nat, e: nat)
    requires a <= e <= |t| && base + |t| < |mem| && '\0' !in t && mem[base + e] == '\0'
    requires forall q :: base + a <= q < base + e ==> mem[q] == t[q - base]
    ensures Holds(mem, base + a, t[a..e])
  {
    assert mem[base + a..base + e] == t[a..e];
    assert forall c :: c in t[a..e] ==> c in t;
  }

  lemma FieldFinished(mem: seq<char>, base: nat, t: Text, i: nat, e: nat, done: seq<Span>, fields: seq<nat>)
    requires i <= e <= |t| && Finished(mem, base, t, i, done, fields) && Holds(mem, base + i, t[i..e])
    ensures Finished(mem, base, t, Behind(t, e), done + [(i, e)], fields + [base + i])
  {
    var all, starts := done + [(i, e)], fields + [base + i];
    forall j | 0 <= j < |all|
      ensures starts[j] == base + all[j].0 && Holds(mem, starts[j], t[all[j].0..all[j].1])
    {
      if j < |done| {
        assert all[j] == done[j] && starts[j] == fields[j];
      }
    }
  }

  /** Writing each delimiter back in front of the field that follows it. */
  function Mend(mem: seq<char>, fields: seq<nat>, seps: Text): (r: seq<char>)
    requires |fields| == |seps| + 1 && forall k :: 0 < k < |fields| ==> 0 < fields[k] <= |mem|
    decreases |seps|
  {
    if seps == "" then mem else Mend(mem[fields[1] - 1 := seps[0]], fields[1..], seps[1..])
  }

  /** These are the starts of the fields from position i on, and the buffer is mended up to there. */
  ghost predicate Mending(was: seq<char>, now: seq<char>, base: nat, t: Text, ct: Text, i: nat, fields: seq<nat>)
  {
    && i <= |t| && base + |t| <= |was| == |now|
    && |fields| == |FieldSpans(t, i, ct)|
    && (forall j :: 0 <= j < |fields| ==> fields[j] == base + FieldSpans(t, i, ct)[j].0)
    && (forall q :: 0 <= q < |was| && !(base + i <= q < base + |t|) ==> now[q] == was[q])
    && forall q :: base + i <= q < base + |t| ==>
         was[q] == t[q - base] && (t[q - base] !in ct ==> now[q] == t[q - base])
  }

  lemma {:induction false} MendFrom(was: seq<char>, now: seq<char>, base: nat, t: Text, ct: Text, i: nat,
                                    fields: seq<nat>)
    requires Mending(was, now, base, t, ct, i, fields)
    ensures |fields| == |Delimiters(t, i, ct)| + 1
    ensures forall k :: 0 < k < |fields| ==> 0 < fields[k] <= |now|
    ensures Mend(now, fields, Delimiters(t, i, ct)) == was
    decreases |t| - i
  {
    FieldsInRange(t, i, ct);
    var e := Stop(t, i, ct);
    if e == |t| {
      assert now == was;
    } else {
      var next, rest := now[base + e := t[e]], Delimiters(t, e + 1, ct);
      MendOne(was, now, base, t, ct, i, fields);
      MendFrom(was, next, base, t, ct, e + 1, fields[1..]);
      MendHead(now, fields, base + e, t[e], rest);
    }
  }

  /** Mend, its first step made apart. */
  lemma MendHead(now: seq<char>, fields: seq<nat>, at: nat, c: char, seps: Text)
    requires |fields| == |seps| + 2 && fields[1] == at + 1 && at < |now|
    requires forall k :: 0 < k < |fields[1..]| ==> 0 < fields[1..][k] <= |now|
    ensures forall k :: 0 < k < |fields| ==> 0 < fields[k] <= |now|
    ensures Mend(now, fields, [c] + seps) == Mend(now[at := c], fields[1..], seps)
  {
    forall k | 0 < k < |fields|
      ensures 0 < fields[k] <= |now|
    {
      assert k > 1 ==> fields[k] == fields[1..][k - 1];
    }
    assert ([c] + seps)[1..] == seps;
  }

  /** One delimiter put back. */
  lemma MendOne(was: seq<char>, now: seq<char>, base: nat, t: Text, ct: Text, i: nat, fields: seq<nat>)
    requires Mending(was, now, base, t, ct, i, fields) && Stop(t, i, ct) < |t|
    ensures var e := Stop(t, i, ct);
      && |fields| > 1 && fields[1] == base + e + 1
      && Mending(was, now[base + e := t[e]], base, t, ct, e + 1, fields[1..])
  {
    var e := Stop(t, i, ct);
    var spans, rest := FieldSpans(t, e + 1, ct), fields[1..];
    assert FieldSpans(t, i, ct) == [(i, e)] + spans;
    StartsAt(t, e + 1, ct);
    forall j | 0 <= j < |rest|
      ensures rest[j] == base + spans[j].0
    {
      assert FieldSpans(t, i, ct)[j + 1] == spans[j];
    }
  }

  lemma StartsAt(t: Text, i: nat, ct: Text)
    requires i <= |t|
    ensures FieldSpans(t, i, ct)[0].0 == i
  {
  }

  /** From the returned fields and the list of overwritten delimiters alone the original buffer comes
      back. */
  lemma MendRestores(was: seq<char>, now: seq<char>, base: nat, t: Text, ct: Text, fields: seq<nat>)
    requires Rest(was, base, t, 0) && SameOutside(was, now, base, t) && Cut(now, base, t, ct, |t|)
    requires Finished(now, base, t, |t|, FieldSpans(t, 0, ct), fields)
    ensures |fields| == |Delimiters(t, 0, ct)| + 1
    ensures forall k :: 0 < k < |fields| ==> 0 < fields[k] <= |now|
    ensures Mend(now, fields, Delimiters(t, 0, ct)) == was
  {
    MendFrom(was, now, base, t, ct, 0, fields);
  }
}
