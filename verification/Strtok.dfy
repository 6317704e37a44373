/** The C library's strtok, with its hidden position and its writes into the scanned buffer. */
module Strtok {

  const NUL: char := '\0'

  /** The buffer ends in a NUL, so that no scan leaves it. */
  predicate Terminated(buf: seq<char>) {
    buf != [] && buf[|buf| - 1] == NUL
  }

  /** The first position from `p` on whose character is no delimiter. */
  function Skip(buf: seq<char>, p: nat, delims: string): (t: nat)
    requires Terminated(buf) && p < |buf| && NUL !in delims
    ensures p <= t < |buf| && buf[t] !in delims
    ensures forall k :: p <= k < t ==> buf[k] in delims
    decreases |buf| - p
  {
    if buf[p] in delims then Skip(buf, p + 1, delims) else p
  }

  /** The first position from `p` on that holds a delimiter or a NUL. */
  function Stop(buf: seq<char>, p: nat, delims: string): (e: nat)
    requires Terminated(buf) && p < |buf|
    ensures p <= e < |buf| && (buf[e] == NUL || buf[e] in delims)
    ensures forall k :: p <= k < e ==> buf[k] != NUL && buf[k] !in delims
    decreases |buf| - p
  {
    if buf[p] == NUL || buf[p] in delims then p else Stop(buf, p + 1, delims)
  }

  /** The result of a call: the buffer, where the next call goes on, and where the token
      starts, or -1 for NULL. */
  datatype Scan = Scan(buf: seq<char>, next: nat, token: int)

  function Tokenize(buf: seq<char>, p: nat, delims: string): (r: Scan)
    requires Terminated(buf) && p < |buf| && NUL !in delims
    ensures |r.buf| == |buf| && Terminated(r.buf) && p <= r.next < |buf|
    ensures r.token == -1 || p <= r.token <= r.next
  {
    var t := Skip(buf, p, delims);
    if buf[t] == NUL then Scan(buf, t, -1)
    else
      var e := Stop(buf, t, delims);
      if buf[e] == NUL then Scan(buf, e, t) else Scan(buf[e := NUL], e + 1, t)
  }

  /** A call changes nothing before its starting point and nothing that is still to be
      scanned. */
  lemma TokenizeFrame(buf: seq<char>, p: nat, delims: string)
    requires Terminated(buf) && p < |buf| && NUL !in delims
    ensures var r := Tokenize(buf, p, delims);
      r.buf[..p] == buf[..p] && r.buf[r.next..] == buf[r.next..]
  {
  }

  /** The C string that starts at `p`. */
  function CString(buf: seq<char>, p: nat): (s: string)
    requires Terminated(buf) && p < |buf|
    ensures p + |s| < |buf| && buf[p..p + |s|] == s && buf[p + |s|] == NUL && NUL !in s
  {
    buf[p..Stop(buf, p, [])]
  }

  lemma CStringIs(buf: seq<char>, p: nat, s: string)
    requires Terminated(buf) && p + |s| < |buf| && buf[p + |s|] == NUL
    requires forall k :: p <= k < p + |s| ==> buf[k] == s[k - p] && buf[k] != NUL
    ensures CString(buf, p) == s
  {
  }

  /** A token runs from its first character to the first delimiter after it, which becomes
      a NUL. */
  lemma TokenAt(buf: seq<char>, p: nat, t: nat, e: nat, delims: string)
    requires Terminated(buf) && p <= t < e < |buf| && NUL !in delims
    requires forall k :: p <= k < t ==> buf[k] in delims
    requires forall k :: t <= k < e ==> buf[k] != NUL && buf[k] !in delims
    requires buf[e] in delims
    ensures Tokenize(buf, p, delims) == Scan(buf[e := NUL], e + 1, t)
  {
    var first := Skip(buf, p, delims);
    assert buf[t] !in delims && !(first < t) && !(t < first);
    assert Stop(buf, t, delims) == e;
  }

  // ---- What a run of calls finds in the text ----

  /** A stretch of the text. */
  datatype Field = Field(at: nat, len: nat)

  /** The first stretch from `p` on that is free of delimiters, as long as it goes. */
  predicate IsField(buf: seq<char>, p: nat, delims: string, f: Field) {
    && p <= f.at && 0 < f.len && f.at + f.len < |buf|
    && (forall k :: p <= k < f.at ==> buf[k] in delims)
    && (forall k :: f.at <= k < f.at + f.len ==> buf[k] !in delims && buf[k] != NUL)
    && (buf[f.at + f.len] == NUL || buf[f.at + f.len] in delims)
  }

  /** Where the text goes on behind a field: behind one delimiter. */
  function Behind(buf: seq<char>, f: Field): nat
    requires f.at + f.len < |buf|
  {
    if buf[f.at + f.len] == NUL then f.at + f.len else f.at + f.len + 1
  }

  /** Fields that follow each other in the text from `p` on, each up to delimiters of its own. */
  predicate AreFields(buf: seq<char>, p: nat, delims: seq<string>, fields: seq<Field>)
    decreases |delims|
  {
    && |fields| == |delims|
    && (delims != [] ==>
          && IsField(buf, p, delims[0], fields[0])
          && AreFields(buf, Behind(buf, fields[0]), delims[1..], fields[1..]))
  }

  predicate NulFree(delims: seq<string>) {
    forall k :: 0 <= k < |delims| ==> NUL !in delims[k]
  }

  /** A first call at `p` and further calls that go on from there: the buffer and the tokens. */
  function Calls(buf: seq<char>, p: nat, delims: seq<string>): (r: (seq<char>, seq<int>))
    requires Terminated(buf) && p < |buf| && NulFree(delims)
    ensures |r.0| == |buf| && Terminated(r.0) && |r.1| == |delims|
    ensures forall j :: 0 <= j < |r.1| ==> r.1[j] < |buf|
    decreases |delims|
  {
    if delims == [] then (buf, [])
    else
      var r := Tokenize(buf, p, delims[0]);
      var rest := Calls(r.buf, r.next, delims[1..]);
      (rest.0, [r.token] + rest.1)
  }

  lemma NoField(buf: seq<char>, p: nat, t: nat, delims: string, f: Field)
    requires p <= t < |buf| && (forall k :: p <= k < t ==> buf[k] in delims) && buf[t] == NUL && NUL !in delims
    ensures !IsField(buf, p, delims, f)
  {
    if f.at < t {
      assert p <= f.at ==> buf[f.at] in delims;
    } else {
      assert buf[t] !in delims;
    }
  }

  lemma TokenIsField(buf: seq<char>, p: nat, delims: string)
    requires Terminated(buf) && p < |buf| && NUL !in delims
    ensures var r := Tokenize(buf, p, delims);
      if r.token < 0 then buf[r.next] == NUL && r.buf == buf && forall f :: !IsField(buf, p, delims, f)
      else
        var f := Field(r.token, |CString(r.buf, r.token)|);
        && f.at + f.len < |buf| && r.next == Behind(buf, f) && IsField(buf, p, delims, f)
        && CString(r.buf, f.at) == buf[f.at..f.at + f.len] && r.buf[f.at + f.len] == NUL
  {
    var t := Skip(buf, p, delims);
    if buf[t] == NUL {
      forall f ensures !IsField(buf, p, delims, f) {
        NoField(buf, p, t, delims, f);
      }
    } else {
      var r := Tokenize(buf, p, delims);
      var e := Stop(buf, t, delims);
      CStringIs(r.buf, t, buf[t..e]);
    }
  }

  /** A text has at most one such stretch. */
  lemma OneField(buf: seq<char>, p: nat, delims: string, f: Field, g: Field)
    requires IsField(buf, p, delims, f) && IsField(buf, p, delims, g)
    ensures f == g
  {
    assert buf[f.at] !in delims && buf[g.at] !in delims;
    assert !(f.at < g.at) && !(g.at < f.at);
    EndsBehind(buf, f.at, f.len, g.len, delims);
    EndsBehind(buf, f.at, g.len, f.len, delims);
  }

  lemma EndsBehind(buf: seq<char>, at: nat, n: nat, m: nat, delims: string)
    requires at + n < |buf| && at + m <= |buf| && (buf[at + n] == NUL || buf[at + n] in delims)
    requires forall k :: at <= k < at + m ==> buf[k] !in delims && buf[k] != NUL
    ensures n >= m
  {
  }

  lemma SameFrom(buf: seq<char>, b: seq<char>, q: nat)
    requires |b| == |buf| && q <= |buf| && b[q..] == buf[q..]
    ensures forall k :: q <= k < |buf| ==> b[k] == buf[k]
  {
  }

  /** Fields from `p` on depend on the text from `p` on only. */
  lemma {:induction false} FieldsFrom(a: seq<char>, b: seq<char>, p: nat, delims: seq<string>, fields: seq<Field>)
    requires |a| == |b| && p <= |a| && a[p..] == b[p..] && AreFields(a, p, delims, fields)
    ensures AreFields(b, p, delims, fields)
    decreases |delims|
  {
    if delims != [] {
      SameFrom(a, b, p);
      var q := Behind(a, fields[0]);
      assert IsField(b, p, delims[0], fields[0]) && Behind(b, fields[0]) == q;
      assert a[q..] == b[q..];
      FieldsFrom(a, b, q, delims[1..], fields[1..]);
    }
  }

  /** Further calls leave the text in front of them alone, and find nothing at a NUL. */
  lemma {:induction false} CallsFrame(buf: seq<char>, p: nat, delims: seq<string>)
    requires Terminated(buf) && p < |buf| && NulFree(delims)
    ensures Calls(buf, p, delims).0[..p] == buf[..p]
    ensures buf[p] == NUL ==> Calls(buf, p, delims).0 == buf && forall t :: t in Calls(buf, p, delims).1 ==> t == -1
    decreases |delims|
  {
    if delims != [] {
      var r := Tokenize(buf, p, delims[0]);
      TokenizeFrame(buf, p, delims[0]);
      CallsFrame(r.buf, r.next, delims[1..]);
      var b := Calls(buf, p, delims).0;
      assert b[..p] == b[..r.next][..p] == r.buf[..p];
    }
  }

  /** The tokens, and what stands there once all calls have been made, are these fields. */
  ghost predicate Found(buf: seq<char>, r: (seq<char>, seq<int>), fields: seq<Field>)
    requires Terminated(r.0)
  {
    && |r.0| == |buf| && |r.1| == |fields|
    && forall j :: 0 <= j < |fields| ==> FoundOne(buf, r.0, r.1[j], fields[j])
  }

  ghost predicate FoundOne(buf: seq<char>, after: seq<char>, token: int, f: Field)
    requires Terminated(after)
  {
    token == f.at && f.at + f.len < |buf| == |after| && CString(after, f.at) == buf[f.at..f.at + f.len]
  }

  /** A token stays as it is through the calls after it. */
  lemma TokenStays(buf: seq<char>, p: nat, delims: string, later: seq<string>, f: Field)
    requires Terminated(buf) && p < |buf| && NUL !in delims && NulFree(later)
    requires IsField(buf, p, delims, f)
    ensures var r := Tokenize(buf, p, delims);
      && r.next == Behind(buf, f) && r.buf[r.next..] == buf[r.next..]
      && FoundOne(buf, Calls(r.buf, r.next, later).0, r.token, f)
  {
    var r := Tokenize(buf, p, delims);
    TokenIsField(buf, p, delims);
    TokenizeFrame(buf, p, delims);
    OneField(buf, p, delims, f, Field(r.token, |CString(r.buf, r.token)|));
    CallsFrame(r.buf, r.next, later);
    var b, e := Calls(r.buf, r.next, later).0, f.at + f.len;
    hide *;
    StringStays(buf, r.buf, b, r.next, f.at, e);
  }

  lemma StringStays(buf: seq<char>, a: seq<char>, b: seq<char>, q: nat, t: nat, e: nat)
    requires Terminated(a) && Terminated(b) && |a| == |b| == |buf| && t <= e < |buf| && e <= q <= |a|
    requires a[..q] == b[..q] && CString(a, t) == buf[t..e] && a[e] == NUL && (e < q || b == a)
    ensures CString(b, t) == buf[t..e]
  {
    var s := CString(a, t);
    hide CString;
    assert forall k :: 0 <= k < q ==> b[k] == b[..q][k] == a[..q][k];
    assert forall k :: t <= k < e ==> a[k] == a[t..e][k - t] == s[k - t];
    assert forall k :: 0 <= k < |s| ==> s[k] != NUL by { assert forall k :: 0 <= k < |s| ==> s[k] in s; }
    CStringIs(b, t, s);
  }

  /** For every text: if there are fields, the calls find just those and leave them as strings of
      their own. */
  lemma {:induction false} CallsFindFields(buf: seq<char>, p: nat, delims: seq<string>, fields: seq<Field>)
    requires Terminated(buf) && p < |buf| && NulFree(delims)
    requires AreFields(buf, p, delims, fields)
    ensures Found(buf, Calls(buf, p, delims), fields)
    decreases |delims|
  {
    if delims != [] {
      var r := Tokenize(buf, p, delims[0]);
      TokenStays(buf, p, delims[0], delims[1..], fields[0]);
      FieldsFrom(buf, r.buf, r.next, delims[1..], fields[1..]);
      CallsFindFields(r.buf, r.next, delims[1..], fields[1..]);
      FieldsLieBehind(r.buf, r.next, delims[1..], fields[1..]);
      FoundMore(buf, r.buf, r.next, r.token, Calls(r.buf, r.next, delims[1..]), fields);
      hide Tokenize, AreFields, FoundOne, Found;
    }
  }

  lemma FoundMore(a: seq<char>, b: seq<char>, q: nat, token: int, rest: (seq<char>, seq<int>), fields: seq<Field>)
    requires fields != [] && Terminated(rest.0) && |a| == |b| && q <= |a| && a[q..] == b[q..]
    requires FoundOne(a, rest.0, token, fields[0]) && Found(b, rest, fields[1..])
    requires forall j :: 0 <= j < |fields[1..]| ==> q <= fields[1..][j].at
    ensures Found(a, (rest.0, [token] + rest.1), fields)
  {
    hide FoundOne;
    forall j | 0 <= j < |fields|
      ensures FoundOne(a, rest.0, ([token] + rest.1)[j], fields[j])
    {
      if j > 0 {
        assert fields[j] == fields[1..][j - 1];
        SameText(a, b, q, rest.0, rest.1[j - 1], fields[j]);
      }
    }
  }

  lemma CallsStep(buf: seq<char>, p: nat, delims: seq<string>, k: nat)
    requires Terminated(buf) && p < |buf| && k < |delims| && NulFree(delims)
    ensures NulFree(delims[k..]) && NulFree(delims[k + 1..])
    ensures var r := Tokenize(buf, p, delims[k]);
      var rest := Calls(r.buf, r.next, delims[k + 1..]);
      Calls(buf, p, delims[k..]) == (rest.0, [r.token] + rest.1)
  {
    assert delims[k..][1..] == delims[k + 1..];
  }

  lemma SameText(a: seq<char>, b: seq<char>, q: nat, after: seq<char>, token: int, f: Field)
    requires Terminated(after) && |a| == |b| && q <= |a| && a[q..] == b[q..] && q <= f.at
    requires FoundOne(b, after, token, f)
    ensures FoundOne(a, after, token, f)
  {
    SameFrom(a, b, q);
    assert a[f.at..f.at + f.len] == b[f.at..f.at + f.len];
  }

  lemma {:induction false} FieldsLieBehind(buf: seq<char>, p: nat, delims: seq<string>, fields: seq<Field>)
    requires AreFields(buf, p, delims, fields)
    ensures forall j :: 0 <= j < |fields| ==> p <= fields[j].at
    decreases |delims|
  {
    if delims != [] {
      FieldsLieBehind(buf, Behind(buf, fields[0]), delims[1..], fields[1..]);
      assert forall j :: 0 < j < |fields| ==> fields[j] == fields[1..][j - 1];
    }
  }

  /** And if the last call finds a token, there are such fields. */
  lemma {:induction false} LastFindsAll(buf: seq<char>, p: nat, delims: seq<string>) returns (fields: seq<Field>)
    requires Terminated(buf) && p < |buf| && delims != [] && NulFree(delims)
    requires Calls(buf, p, delims).1[|delims| - 1] >= 0
    ensures AreFields(buf, p, delims, fields)
    decreases |delims|
  {
    var r := Tokenize(buf, p, delims[0]);
    TokenIsField(buf, p, delims[0]);
    TokenizeFrame(buf, p, delims[0]);
    var rest := Calls(r.buf, r.next, delims[1..]);
    CallsFrame(r.buf, r.next, delims[1..]);
    if |delims| > 1 {
      assert ([r.token] + rest.1)[|delims| - 1] == rest.1[|delims| - 2];
      assert rest.1[|delims| - 2] in rest.1;
    }
    assert r.token >= 0;
    var f := Field(r.token, |CString(r.buf, r.token)|);
    if |delims| == 1 {
      fields := [f];
    } else {
      var more := LastFindsAll(r.buf, r.next, delims[1..]);
      FieldsFrom(r.buf, buf, r.next, delims[1..], more);
      fields := [f] + more;
      assert fields[1..] == more;
    }
  }

  class Tokenizer {
    const buf: array<char>
    var next: nat

    constructor (buf: array<char>)
      ensures this.buf == buf && next == 0
    {
      this.buf := buf;
      next := 0;
    }

    /** strtok(start, delims), or strtok(NULL, delims) when `start` is -1. */
    method Strtok(start: int, delims: string) returns (token: int)
      requires Terminated(buf[..]) && NUL !in delims
      requires -1 <= start < buf.Length && next < buf.Length
      modifies this`next, buf
      ensures Scan(buf[..], next, token) == Tokenize(old(buf[..]), if start < 0 then old(next) else start, delims)
    {
      var p := if start < 0 then next else start;
      ghost var text := buf[..];
      while buf[p] in delims
        invariant p < buf.Length && buf[..] == text
        invariant Skip(text, p, delims) == Skip(text, if start < 0 then old(next) else start, delims)
        decreases buf.Length - p
      {
        p := p + 1;
      }
      if buf[p] == NUL {
        next := p;
        return -1;
      }
      token := p;
      while buf[p] != NUL && buf[p] !in delims
        invariant token <= p < buf.Length && buf[..] == text
        invariant Stop(text, p, delims) == Stop(text, token, delims)
        decreases buf.Length - p
      {
        p := p + 1;
      }
      if buf[p] != NUL {
        buf[p] := NUL;
        p := p + 1;
      }
      next := p;
    }
  }
}
