/**
 The parser of the modem's answer to `AT+COPS=?`, which section 7.3 of 3GPP TS 27.007 defines.
 It looks for the closing parenthesis of each operator in a buffer that strtok is already
 cutting up.

 `Parse` and the functions under it follow the buffer as a value; the class runs the same
 parser in place. Where C leaves the behaviour undefined the result is `Undefined`.
 */
module OperatorList {
  import opened Decimal
  import opened Strtok

  const BUF_SIZE: nat := 1024
  const MAX_OPERATOR_NAME: nat := 30

  type NameField = s: seq<char> | |s| == 30 witness Zeros(30)
  type TechField = s: seq<char> | |s| == 4 witness Zeros(4)

  function Zeros(n: nat): (s: seq<char>)
    ensures |s| == n
  {
    seq(n, _ => NUL)
  }

  /** OPERATOR_INFO; the two text fields are NUL-filled character arrays. */
  datatype OperatorInfo = OperatorInfo(name: NameField, code: int, tech: TechField, status: nat)

  const NO_OPERATOR: OperatorInfo := OperatorInfo(Zeros(30), 0, Zeros(4), 0)

  // ---- strtol, base 10, on the target's 32-bit long ----

  predicate IsDigit(c: char) {
    '0' <= c <= '9'
  }

  function DigitsValue(s: string, acc: nat): nat {
    if s == [] || !IsDigit(s[0]) then acc else DigitsValue(s[1..], 10 * acc + (s[0] as nat - '0' as nat))
  }

  function Strtol(s: string): int {
    if s == [] then 0
    else if s[0] in " \t\n\r" || s[0] == 11 as char || s[0] == 12 as char then Strtol(s[1..])
    else
      var v: int :=
        if s[0] == '-' then 0 - DigitsValue(s[1..], 0)
        else if s[0] == '+' then DigitsValue(s[1..], 0)
        else DigitsValue(s, 0);
      Saturated(v)
  }

  function Saturated(v: int): int {
    if v > 0x7FFF_FFFF then 0x7FFF_FFFF else if v < -0x8000_0000 then -0x8000_0000 else v
  }

  // ---- The parser on values ----

  datatype OpResult =
    | Parsed(buf: seq<char>, info: OperatorInfo)
    | Failed(buf: seq<char>, info: OperatorInfo)
    | Undefined

  /** memcpy(dst, src, |src|) into a larger array */
  function CopyInto(dst: seq<char>, src: seq<char>): (r: seq<char>)
    requires |src| <= |dst|
    ensures |r| == |dst| && r[..|src|] == src && r[|src|..] == dst[|src|..]
  {
    src + dst[|src|..]
  }

  /** The second half of pars_op, once the five tokens are found. */
  function FillInfo(buf: seq<char>, status: nat, opname: nat, opnum: nat, technology: nat, info: OperatorInfo)
    : (r: OpResult)
    requires Terminated(buf) && status < |buf| && opname < |buf| && opnum < |buf| && technology < |buf|
    ensures r.Parsed? ==> r.buf == buf
  {
    var known := StatusOf(buf[status]);
    if known < 0 then Failed(buf, info)
    else
      var info1 := info.(status := known);
      if buf[technology] != '0' && buf[technology] != '2' then Failed(buf, info1)
      else
        var info2 := info1.(tech := CopyInto(info.tech, if buf[technology] == '0' then "2G" else "3G"),
                            code := Strtol(CString(buf, opnum)));
        var name := CString(buf, opname);
        if !(2 <= |name| <= MAX_OPERATOR_NAME + 2) then Undefined
        else Parsed(buf, info2.(name := CopyInto(info.name, name[1..|name| - 1])))
  }

  /** The first switch of pars_op; -1 is its default. */
  function StatusOf(c: char): int {
    if c == '0' then 0 else if c == '1' then 1 else if c == '2' then 2 else if c == '3' then 3 else -1
  }

  datatype Tokens = Tokens(buf: seq<char>, status: int, opname: int, opnum: int, technology: int)

  /** The five calls of strtok in pars_op. */
  function FindTokens(buf: seq<char>, start: nat): (r: Tokens)
    requires Terminated(buf) && start < |buf|
    ensures |r.buf| == |buf| && Terminated(r.buf)
    ensures r.status < |buf| && r.opname < |buf| && r.opnum < |buf| && r.technology < |buf|
  {
    var t1 := Tokenize(buf, start, ",");
    var t2 := Tokenize(t1.buf, t1.next, ",");
    var t3 := Tokenize(t2.buf, t2.next, ",");
    var t4 := Tokenize(t3.buf, t3.next, ",\"");
    var t5 := Tokenize(t4.buf, t4.next, ",\")");
    Tokens(t5.buf, t1.token, t2.token, t4.token, t5.token)
  }

  /** The delimiters of the five fields: status, long name, short name, number, technology. */
  function Delimiters(): (ds: seq<string>)
    ensures |ds| == 5 && NulFree(ds)
  {
    [",", ",", ",", ",\"", ",\")"]
  }

  lemma FiveCalls(buf: seq<char>, start: nat)
    requires Terminated(buf) && start < |buf|
    ensures var r, t := Calls(buf, start, Delimiters()), FindTokens(buf, start);
      && r.0 == t.buf && r.1[0] == t.status && r.1[1] == t.opname && r.1[3] == t.opnum && r.1[4] == t.technology
  {
    hide Tokenize;
    var ds := Delimiters();
    var t1 := Tokenize(buf, start, ",");
    var t2 := Tokenize(t1.buf, t1.next, ",");
    var t3 := Tokenize(t2.buf, t2.next, ",");
    var t4 := Tokenize(t3.buf, t3.next, ",\"");
    var t5 := Tokenize(t4.buf, t4.next, ",\")");
    assert Tokens(t5.buf, t1.token, t2.token, t4.token, t5.token) == FindTokens(buf, start);
    assert ds[0] == ds[1] == ds[2] == "," && ds[3] == ",\"" && ds[4] == ",\")";
    hide FindTokens, Delimiters, Calls;
    CallsStep(buf, start, ds, 0);
    CallsStep(t1.buf, t1.next, ds, 1);
    CallsStep(t2.buf, t2.next, ds, 2);
    CallsStep(t3.buf, t3.next, ds, 3);
    CallsStep(t4.buf, t4.next, ds, 4);
    assert ds[0..] == ds && ds[5..] == [];
    FiveInARow(t1.token, t2.token, t3.token, t4.token, t5.token, Calls(buf, start, ds).1);
  }

  lemma FiveInARow(a: int, b: int, c: int, d: int, e: int, s: seq<int>)
    requires s == [a] + ([b] + ([c] + ([d] + ([e] + []))))
    ensures s == [a, b, c, d, e]
  {
  }

  /** For every text, the four tokens that pars_op looks at are the first, second, fourth and
      fifth of five fields that follow each other, each a string of its own at the end. */
  lemma TokensAreFields(buf: seq<char>, start: nat, fields: seq<Field>)
    requires Terminated(buf) && start < |buf| && AreFields(buf, start, Delimiters(), fields)
    ensures |fields| == 5
    ensures var t := FindTokens(buf, start);
      && FoundOne(buf, t.buf, t.status, fields[0]) && FoundOne(buf, t.buf, t.opname, fields[1])
      && FoundOne(buf, t.buf, t.opnum, fields[3]) && FoundOne(buf, t.buf, t.technology, fields[4])
  {
    hide FindTokens, FoundOne, Delimiters, Calls;
    FiveCalls(buf, start);
    CallsFindFields(buf, start, Delimiters(), fields);
  }

  /** One of them is missing exactly if the text does not hold five such fields. */
  lemma MissingExactlyIf(buf: seq<char>, start: nat)
    requires Terminated(buf) && start < |buf|
    ensures var t := FindTokens(buf, start);
      t.status >= 0 && t.opname >= 0 && t.opnum >= 0 && t.technology >= 0
      <==> exists fields :: AreFields(buf, start, Delimiters(), fields)
  {
    hide FindTokens, AreFields, Delimiters, Calls;
    var t := FindTokens(buf, start);
    FiveCalls(buf, start);
    if t.technology >= 0 {
      var fields := LastFindsAll(buf, start, Delimiters());
      assert AreFields(buf, start, Delimiters(), fields);
    }
    forall fields | AreFields(buf, start, Delimiters(), fields)
      ensures t.status >= 0 && t.opname >= 0 && t.opnum >= 0 && t.technology >= 0
    {
      TokensAreFields(buf, start, fields);
    }
  }

  /** pars_op on the text from `start`, of which `len` characters belong to the operator. */
  function ParseOp(buf: seq<char>, start: nat, len: nat, info: OperatorInfo): (r: OpResult)
    requires Terminated(buf) && start < |buf|
    ensures r.Parsed? ==> |r.buf| == |buf| && Terminated(r.buf)
  {
    hide FindTokens, CString, FillInfo;
    var t := FindTokens(buf, start);
    if t.status < 0 || t.opname < 0 || t.opnum < 0 || t.technology < 0 then Failed(t.buf, info)
    else if t.technology + |CString(t.buf, t.technology)| - start > len then Failed(t.buf, info)
    else FillInfo(t.buf, t.status, t.opname, t.opnum, t.technology, info)
  }

  /** The tokens that make pars_op fail: a missing one, one that reaches beyond the operator, or
      a status or a technology that it does not know. */
  predicate Bad(t: Tokens, start: nat, len: nat)
    requires Terminated(t.buf)
    requires t.status < |t.buf| && t.opname < |t.buf| && t.opnum < |t.buf| && t.technology < |t.buf|
  {
    || t.status < 0 || t.opname < 0 || t.opnum < 0 || t.technology < 0
    || t.technology + |CString(t.buf, t.technology)| > start + len
    || t.buf[t.status] !in "0123" || t.buf[t.technology] !in "02"
  }

  /** pars_op fails exactly on such tokens, and then at most the status has changed. Otherwise
      the name without its quotes, the technology, the number and the status are stored, and
      the rest of the text fields stays; C leaves that undefined exactly for a name that does
      not fit. */
  lemma ParseOpFailsExactlyIf(buf: seq<char>, start: nat, len: nat, info: OperatorInfo)
    requires Terminated(buf) && start < |buf|
    ensures var t, r := FindTokens(buf, start), ParseOp(buf, start, len, info);
      && (r.Failed? <==> Bad(t, start, len))
      && (r.Failed? ==> r.info == info.(status := r.info.status))
      && (r.Undefined? <==> !Bad(t, start, len) && !(2 <= |CString(t.buf, t.opname)| <= 32))
      && (r.Parsed? ==> r.buf == t.buf && Holds(r.info, t, info))
  {
    hide FindTokens, CString, Strtol, Tokenize;
    var t := FindTokens(buf, start);
    if !Bad(t, start, len) && 2 <= |CString(t.buf, t.opname)| <= 32 {
      var name := CString(t.buf, t.opname);
      var n := |name| - 2;
      assert name[1..|name| - 1] == name[1..n + 1];
    }
  }

  /** What the tokens say, in a structure that held `was`. */
  predicate Holds(info: OperatorInfo, t: Tokens, was: OperatorInfo)
    requires Terminated(t.buf)
    requires 0 <= t.status < |t.buf| && 0 <= t.opname < |t.buf| && 0 <= t.opnum < |t.buf|
    requires 0 <= t.technology < |t.buf| && 2 <= |CString(t.buf, t.opname)| <= 32
  {
    var name := CString(t.buf, t.opname);
    var n := |name| - 2;
    && info.status == t.buf[t.status] as int - '0' as int
    && info.code == Strtol(CString(t.buf, t.opnum))
    && info.name[..n] == name[1..n + 1] && info.name[n..] == was.name[n..]
    && info.tech[..2] == (if t.buf[t.technology] == '0' then "2G" else "3G") && info.tech[2..] == was.tech[2..]
  }

  /** One past the first `c` from `p` on, or one past the end of the buffer. */
  function Past(buf: seq<char>, p: nat, c: char, limit: nat): (q: nat)
    requires p < limit <= |buf|
    ensures p < q <= limit
    ensures q < limit ==> buf[q - 1] == c
    ensures forall k :: p <= k < q - 1 ==> buf[k] != c
    decreases limit - p
  {
    if buf[p] == c || p + 1 == limit then p + 1 else Past(buf, p + 1, c, limit)
  }

  datatype Outcome = Done(rc: int, ops: seq<OperatorInfo>, numOpsFound: int) | UndefinedOutcome

  /** The loop of CellularGetOperators from round `i` on. */
  function ParseFrom(buf: seq<char>, ptr: nat, i: nat, ops: seq<OperatorInfo>, maxops: nat): Outcome
    requires |buf| == BUF_SIZE && Terminated(buf) && ptr <= BUF_SIZE
    requires i <= maxops <= |ops|
    decreases maxops - i
  {
    if i == maxops then Done(0, ops, maxops)
    else if ptr == BUF_SIZE then UndefinedOutcome
    else
      var close := Past(buf, ptr, ')', BUF_SIZE);
      if close >= BUF_SIZE then Done(0, ops, i)
      else
        match ParseOp(buf, ptr + 1, close - ptr, ops[i])
        case Undefined => UndefinedOutcome
        case Failed(_, info) => Done(-1, ops[i := info], 0)
        case Parsed(buf', info) => ParseFrom(buf', close + 1, i + 1, ops[i := info], maxops)
  }

  /** CellularGetOperators on the received text. */
  function Parse(received: string, ops: seq<OperatorInfo>, maxops: int, numOps: int): Outcome
    requires |received| < BUF_SIZE && maxops <= |ops|
  {
    if maxops == 0 then Done(0, ops, numOps)
    else if maxops < 0 then Done(-1, ops, numOps)
    else
      var buf := received + Zeros(BUF_SIZE - |received|);
      ParseFrom(buf, Past(buf, 0, ' ', BUF_SIZE - 1), 0, ops, maxops)
  }

  /** Whatever was received: a success reports no more operators than asked for and touches
      only the structures it counts; a failure reports none. */
  lemma {:induction false} ParseFromFrame(buf: seq<char>, ptr: nat, i: nat, ops: seq<OperatorInfo>, maxops: nat)
    requires |buf| == BUF_SIZE && Terminated(buf) && ptr <= BUF_SIZE && i <= maxops <= |ops|
    ensures var r := ParseFrom(buf, ptr, i, ops, maxops);
      r.Done? ==>
        && |r.ops| == |ops| && r.ops[..i] == ops[..i] && r.ops[maxops..] == ops[maxops..]
        && (r.rc == 0 ==> i <= r.numOpsFound <= maxops && r.ops[r.numOpsFound..] == ops[r.numOpsFound..])
        && (r.rc != 0 ==> r.rc == -1 && r.numOpsFound == 0)
    decreases maxops - i
  {
    hide Past, ParseOp;
    if i < maxops && ptr < BUF_SIZE {
      var close := Past(buf, ptr, ')', BUF_SIZE);
      if close < BUF_SIZE {
        match ParseOp(buf, ptr + 1, close - ptr, ops[i])
        case Undefined =>
        case Failed(_, info) =>
        case Parsed(b, info) =>
          ParseFromFrame(b, close + 1, i + 1, ops[i := info], maxops);
          var r := ParseFrom(b, close + 1, i + 1, ops[i := info], maxops);
          if r.Done? { FrameMore(ops, i, info, r.ops, maxops); }
      }
    }
  }

  lemma FrameMore(ops: seq<OperatorInfo>, i: nat, info: OperatorInfo, after: seq<OperatorInfo>, maxops: nat)
    requires i < maxops <= |ops| == |after| && after[..i + 1] == ops[i := info][..i + 1]
    ensures after[..i] == ops[..i]
    ensures forall n :: i < n <= |ops| ==> ops[i := info][n..] == ops[n..]
  {
    assert after[..i] == after[..i + 1][..i] && ops[i := info][..i + 1][..i] == ops[..i];
  }

  // ---- The parser in place ----

  /** `op_info` after pars_op, and its result. */
  predicate Agrees(r: OpResult, rc: int, buf: seq<char>, info: OperatorInfo) {
    match r
    case Parsed(b, i) => rc == 0 && b == buf && i == info
    case Failed(b, i) => rc == -1 && i == info
    case Undefined => true
  }

  /** pars_op, which runs strtok on the receive buffer. `undefined` says that C leaves the
      copying of the name undefined. */
  method ParsOp(t: Tokenizer, start: nat, len: nat, opList: array<OperatorInfo>, idx: nat)
    returns (rc: int, undefined: bool)
    requires Terminated(t.buf[..]) && start < t.buf.Length && t.next < t.buf.Length && idx < opList.Length
    modifies t, t.buf, opList
    ensures undefined <==> ParseOp(old(t.buf[..]), start, len, old(opList[idx])).Undefined?
    ensures Agrees(ParseOp(old(t.buf[..]), start, len, old(opList[idx])), rc, t.buf[..], opList[idx])
    ensures forall j :: 0 <= j < opList.Length && j != idx ==> opList[j] == old(opList[j])
    ensures !undefined && rc == 0 ==> Terminated(t.buf[..]) && t.next < t.buf.Length
  {
    hide Tokenize, FindTokens, CString, FillInfo;
    var status, opname, opnum, technology := FiveTokens(t, start);
    if status < 0 || opname < 0 || opnum < 0 || technology < 0 {
      return -1, false;
    }
    var text := t.buf[..];
    if technology + |CString(text, technology)| - start > len {
      return -1, false;
    }
    rc, undefined := FillOperator(text, status, opname, opnum, technology, opList, idx);
  }

  /** The second half of pars_op, which fills in the caller's structure. */
  method FillOperator(text: seq<char>, status: nat, opname: nat, opnum: nat, technology: nat,
                      opList: array<OperatorInfo>, idx: nat)
    returns (rc: int, undefined: bool)
    requires Terminated(text) && status < |text| && opname < |text| && opnum < |text| && technology < |text|
    requires idx < opList.Length
    modifies opList
    ensures undefined <==> FillInfo(text, status, opname, opnum, technology, old(opList[idx])).Undefined?
    ensures Agrees(FillInfo(text, status, opname, opnum, technology, old(opList[idx])), rc, text, opList[idx])
    ensures forall j :: 0 <= j < opList.Length && j != idx ==> opList[j] == old(opList[j])
  {
    hide CString, Strtol, CopyInto, Zeros;
    undefined := false;
    if text[status] == '0' {
      opList[idx] := opList[idx].(status := 0);
    } else if text[status] == '1' {
      opList[idx] := opList[idx].(status := 1);
    } else if text[status] == '2' {
      opList[idx] := opList[idx].(status := 2);
    } else if text[status] == '3' {
      opList[idx] := opList[idx].(status := 3);
    } else {
      return -1, false;
    }
    if text[technology] == '0' {
      opList[idx] := opList[idx].(tech := CopyInto(opList[idx].tech, "2G"));
    } else if text[technology] == '2' {
      opList[idx] := opList[idx].(tech := CopyInto(opList[idx].tech, "3G"));
    } else {
      return -1, false;
    }
    opList[idx] := opList[idx].(code := Strtol(CString(text, opnum)));
    var name := CString(text, opname);
    if !(2 <= |name| <= MAX_OPERATOR_NAME + 2) {
      return 0, true;
    }
    opList[idx] := opList[idx].(name := CopyInto(opList[idx].name, name[1..|name| - 1]));
    rc := 0;
  }

  method FiveTokens(t: Tokenizer, start: nat) returns (status: int, opname: int, opnum: int, technology: int)
    requires Terminated(t.buf[..]) && start < t.buf.Length && t.next < t.buf.Length
    modifies t, t.buf
    ensures Tokens(t.buf[..], status, opname, opnum, technology) == FindTokens(old(t.buf[..]), start)
    ensures Terminated(t.buf[..]) && t.next < t.buf.Length
  {
    hide Tokenize;
    status := t.Strtok(start, ",");
    opname := t.Strtok(-1, ",");
    var shortName := t.Strtok(-1, ",");
    opnum := t.Strtok(-1, ",\"");
    technology := t.Strtok(-1, ",\")");
  }

  /** `while (buf[count++] != c && count < limit) {}` */
  method ScanPast(buf: array<char>, p: nat, c: char, limit: nat) returns (q: nat)
    requires p < limit <= buf.Length
    ensures q == Past(buf[..], p, c, limit)
  {
    q := p;
    var more := true;
    while more
      invariant p <= q <= limit && (more ==> q < limit)
      invariant Past(buf[..], p, c, limit) == if more then Past(buf[..], q, c, limit) else q
      decreases more, limit - q
    {
      q := q + 1;
      more := buf[q - 1] != c && q < limit;
    }
  }

  /** CellularGetOperators, once the modem has answered `received`. It runs on a 1024-byte
      buffer that strtok destroys while the loop scans it, and does what `Parse` says. */
  method CellularGetOperators(opList: array<OperatorInfo>, maxops: int, received: string, numOps: int)
    returns (rc: int, numOpsFound: int, undefined: bool)
    requires |received| < BUF_SIZE && maxops <= opList.Length
    modifies opList
    ensures undefined <==> Parse(received, old(opList[..]), maxops, numOps).UndefinedOutcome?
    ensures !undefined ==> Done(rc, opList[..], numOpsFound) == Parse(received, old(opList[..]), maxops, numOps)
    ensures maxops <= 0 ==> !undefined && rc == (if maxops == 0 then 0 else -1)
    ensures maxops <= 0 ==> numOpsFound == numOps && opList[..] == old(opList[..])
    ensures !undefined && maxops > 0 && rc == 0 ==>
      0 <= numOpsFound <= maxops && opList[numOpsFound..] == old(opList[numOpsFound..])
    ensures !undefined && maxops > 0 && rc != 0 ==>
      rc == -1 && numOpsFound == 0 && opList[maxops..] == old(opList[maxops..])
  {
    if maxops == 0 {
      return 0, numOps, false;
    }
    if maxops < 0 {
      return -1, numOps, false;
    }
    hide Past, ParseFrom;
    var buf := new char[BUF_SIZE](k => if 0 <= k < |received| then received[k] else NUL);
    assert buf[..] == received + Zeros(BUF_SIZE - |received|);
    var t := new Tokenizer(buf);
    var ptr := ScanPast(buf, 0, ' ', BUF_SIZE - 1);
    ParseFromFrame(buf[..], ptr, 0, opList[..], maxops);
    rc, numOpsFound, undefined := ParseOperators(t, ptr, opList, maxops);
  }

  /** The loop of CellularGetOperators. */
  method ParseOperators(t: Tokenizer, start: nat, opList: array<OperatorInfo>, maxops: nat)
    returns (rc: int, numOpsFound: int, undefined: bool)
    requires t.buf.Length == BUF_SIZE && Terminated(t.buf[..]) && t.next < BUF_SIZE && start <= BUF_SIZE
    requires maxops <= opList.Length
    modifies t, t.buf, opList
    ensures undefined <==> ParseFrom(old(t.buf[..]), start, 0, old(opList[..]), maxops).UndefinedOutcome?
    ensures !undefined ==>
      Done(rc, opList[..], numOpsFound) == ParseFrom(old(t.buf[..]), start, 0, old(opList[..]), maxops)
  {
    hide Past, ParseOp;
    var ptr := start;
    for i := 0 to maxops
      invariant 0 <= ptr <= BUF_SIZE && Terminated(t.buf[..]) && t.next < BUF_SIZE
      invariant ParseFrom(t.buf[..], ptr, i, opList[..], maxops)
             == ParseFrom(old(t.buf[..]), start, 0, old(opList[..]), maxops)
    {
      if ptr == BUF_SIZE {
        return 0, 0, true;
      }
      var close := ScanPast(t.buf, ptr, ')', BUF_SIZE);
      if close >= BUF_SIZE {
        return 0, i, false;
      }
      ghost var ops0 := opList[..];
      rc, undefined := ParsOp(t, ptr + 1, close - ptr, opList, i);
      if undefined {
        return 0, 0, true;
      }
      assert opList[..] == ops0[i := opList[i]];
      if rc != 0 {
        return -1, 0, false;
      }
      ptr := close + 1;
    }
    rc, numOpsFound, undefined := 0, maxops, false;
  }

  // ---- The printer, and the round trip ----

  /** The number that a numeric name stands for, as far as an int can hold it. */
  function Code(numeric: string): int
    requires IsNumeral(numeric)
  {
    if Value(numeric) > 0x7FFF_FFFF then 0x7FFF_FFFF else Value(numeric)
  }

  lemma {:induction false} DigitsFromRight(s: string, c: char, acc: nat)
    requires IsNumeral(s + [c])
    ensures DigitsValue(s + [c], acc) == 10 * DigitsValue(s, acc) + (c as nat - '0' as nat)
  {
    assert (s + [c])[|s|] == c;
    if s == [] {
      assert [c][1..] == [] && [] + [c] == [c];
    } else {
      assert (s + [c])[0] == s[0] && (s + [c])[1..] == s[1..] + [c];
      assert forall k :: 0 <= k < |s| ==> (s + [c])[1..][k] == (s + [c])[k + 1];
      DigitsFromRight(s[1..], c, 10 * acc + (s[0] as nat - '0' as nat));
    }
  }

  lemma {:induction false} DigitsValueIsValue(s: string)
    requires forall k :: 0 <= k < |s| ==> '0' <= s[k] <= '9'
    ensures DigitsValue(s, 0) == Value(s)
  {
    if s != [] {
      var front, c := s[..|s| - 1], s[|s| - 1];
      assert s == front + [c];
      DigitsValueIsValue(front);
      DigitsFromRight(front, c, 0);
    }
  }

  lemma NoSpaceNoSign(c: char)
    requires '0' <= c <= '9'
    ensures c !in " \t\n\r" && c != 11 as char && c != 12 as char && c != '-' && c != '+'
  {
  }

  /** strtol reads a numeral as its number, up to the largest int. */
  lemma StrtolIsCode(s: string)
    requires IsNumeral(s)
    ensures Strtol(s) == Code(s)
  {
    DigitsValueIsValue(s);
    NoSpaceNoSign(s[0]);
    hide DigitsValue, Value;
  }

  /** In particular it gives back every number of that range from its decimal numeral. */
  lemma StrtolOfNumeral(n: nat)
    requires n < 0x8000_0000
    ensures IsNumeral(Numeral(n)) && Strtol(Numeral(n)) == Code(Numeral(n)) == n
  {
    NumeralRoundTrip(n);
    StrtolIsCode(Numeral(n));
  }

  /** strtol passes over white space. */
  lemma StrtolSkipsSpace(s: string, c: char)
    requires c in " \t\n\r" || c == 11 as char || c == 12 as char
    ensures Strtol([c] + s) == Strtol(s)
  {
    assert ([c] + s)[1..] == s;
  }

  lemma StrtolBySign(s: string)
    ensures Strtol("-" + s) == Saturated(0 - DigitsValue(s, 0))
    ensures Strtol("+" + s) == Saturated(DigitsValue(s, 0))
    ensures s != [] && IsDigit(s[0]) ==> Strtol(s) == Saturated(DigitsValue(s, 0))
  {
    var minus, plus := "-" + s, "+" + s;
    assert minus[0] == '-' && minus[1..] == s && plus[0] == '+' && plus[1..] == s;
    assert '-' !in " \t\n\r" && '+' !in " \t\n\r";
    if s != [] && IsDigit(s[0]) {
      NoSpaceNoSign(s[0]);
    }
    hide DigitsValue;
  }

  /** A minus sign negates the numeral behind it, a plus sign does not, and what comes behind the
      digits does not count. */
  lemma StrtolSigned(s: string, rest: string)
    requires IsNumeral(s) && (rest != [] ==> !IsDigit(rest[0]))
    ensures Strtol("-" + (s + rest)) == if Value(s) > 0x8000_0000 then -0x8000_0000 else 0 - (Value(s) as int)
    ensures Strtol("+" + (s + rest)) == Strtol(s + rest) == Code(s)
  {
    DigitsStop(s, rest, 0);
    DigitsValueIsValue(s);
    assert (s + rest)[0] == s[0];
    StrtolBySign(s + rest);
    hide DigitsValue, Value, Strtol;
  }

  /** Without digits the number is 0. */
  lemma StrtolWithoutDigits(rest: string)
    requires rest != [] ==> !IsDigit(rest[0])
    ensures Strtol("-" + rest) == 0 && Strtol("+" + rest) == 0
    ensures (rest != [] ==> rest[0] !in " \t\n\r-+" && rest[0] != 11 as char && rest[0] != 12 as char) ==>
              Strtol(rest) == 0
  {
    DigitsStop([], rest, 0);
    assert [] + rest == rest;
    StrtolBySign(rest);
    if rest != [] && rest[0] !in " \t\n\r-+" && rest[0] != 11 as char && rest[0] != 12 as char {
      NotIn(rest[0]);
    }
    hide DigitsValue;
  }

  lemma NotIn(c: char)
    requires c !in " \t\n\r-+"
    ensures c !in " \t\n\r" && c != '-' && c != '+'
  {
    assert " \t\n\r-+"[4] == '-' && " \t\n\r-+"[5] == '+';
    assert forall k :: 0 <= k < 4 ==> " \t\n\r"[k] == " \t\n\r-+"[k];
  }

  lemma {:induction false} DigitsStop(s: string, rest: string, acc: nat)
    requires (forall k :: 0 <= k < |s| ==> IsDigit(s[k])) && (rest != [] ==> !IsDigit(rest[0]))
    ensures DigitsValue(s + rest, acc) == DigitsValue(s, acc)
  {
    if s == [] {
      assert s + rest == rest;
    } else {
      assert (s + rest)[0] == s[0] && (s + rest)[1..] == s[1..] + rest;
      DigitsStop(s[1..], rest, 10 * acc + (s[0] as nat - '0' as nat));
    }
  }

  /** An operator as the modem lists it: `<stat>`, the long and the short alphanumeric name,
      the numeric name, and `<AcT>`, which is 2 for UTRAN and 0 for GSM. */
  datatype Operator = Operator(status: nat, longName: string, shortName: string, numeric: string, utran: bool)
  {
    predicate Printable() {
      && status < 4 && |longName| <= MAX_OPERATOR_NAME
      && Plain(longName) && Plain(shortName)
      && IsNumeral(numeric)
    }

    /** What the parser should make of it. */
    function Info(): OperatorInfo
      requires Printable()
    {
      OperatorInfo(longName + Zeros(30 - |longName|), Code(numeric),
                   (if utran then "3G" else "2G") + Zeros(2), status)
    }

    function Print(): string
      requires status < 4
    {
      "(" + [StatusChar(status)] + "," +
        (Quoted(longName) + (Quoted(shortName) + (Quoted(numeric) + ([if utran then '2' else '0'] + ")"))))
    }
  }

  function StatusChar(n: nat): (c: char)
    requires n < 4
    ensures StatusOf(c) == n && c as int == 48 + n
  {
    if n == 0 then '0' else if n == 1 then '1' else if n == 2 then '2' else '3'
  }

  predicate Plain(s: string) {
    forall c :: c in s ==> c != ',' && c != ')' && c != NUL
  }

  function Quoted(s: string): string {
    "\"" + s + "\","
  }

  type Listed = o: Operator | o.Printable() witness Operator(0, "", "", "0", false)

  function PrintList(os: seq<Listed>): string {
    if os == [] then "" else if |os| == 1 then os[0].Print() else os[0].Print() + ("," + PrintList(os[1..]))
  }

  /** What follows the list: the supported modes and formats, or nothing. */
  datatype Trailer = NoTrailer | Modes(modes: string, formats: string)
  {
    predicate Printable() {
      Modes? ==> forall c :: c in modes ==> c != ')' && c != NUL
    }

    function Print(): string {
      match this
      case NoTrailer => ""
      case Modes(m, f) => ",,(" + (m + ("),(" + (f + ")")))
    }
  }

  /** The modem's answer. */
  function PrintAnswer(os: seq<Listed>, trailer: Trailer): string {
    "\r\n+COPS: " + (PrintList(os) + (trailer.Print() + "\r\n\r\nOK\r\n"))
  }

  /** One operator, letter by letter. */
  lemma OperatorText()
    ensures Operator(2, "Ptn", "P", "425", true).Print() == "(2,\"Ptn\",\"P\",\"425\",2)"
    ensures Operator(3, "", "C", "42", false).Print() == "(3,\"\",\"C\",\"42\",0)"
  {
  }

  lemma Flat(a: string, b: string, c: string, d: string, e: string)
    ensures a + (b + (c + (d + e))) == a + b + c + d + e
  {
  }

  /** An answer with two operators and with the modes and formats behind them, and one without
      anything. */
  lemma AnswerText(a: Listed, b: Listed, modes: string, formats: string)
    ensures var trailer := Modes(modes, formats);
      && PrintAnswer([a, b], trailer)
         == "\r\n+COPS: " + a.Print() + "," + b.Print() + (trailer.Print() + "\r\n\r\nOK\r\n")
      && trailer.Print() == ",,(" + modes + "),(" + formats + ")"
    ensures PrintAnswer([], NoTrailer) == "\r\n+COPS: \r\n\r\nOK\r\n"
  {
    assert PrintList([a, b]) == a.Print() + ("," + b.Print()) by {
      assert [a, b][1..] == [b];
    }
    hide PrintList, Operator.Print;
    Flat(",,(", modes, "),(", formats, ")");
    EmptyAnswer();
    Grouped("\r\n+COPS: ", a.Print(), ",", b.Print(), Modes(modes, formats).Print() + "\r\n\r\nOK\r\n");
    hide Trailer.Print;
  }

  lemma EmptyAnswer()
    ensures PrintAnswer([], NoTrailer) == "\r\n+COPS: \r\n\r\nOK\r\n"
  {
  }

  lemma Grouped(a: string, b: string, c: string, d: string, e: string)
    ensures a + ((b + (c + d)) + e) == a + b + c + d + e
  {
  }

  /** What the parser should make of a list. */
  function Infos(os: seq<Listed>): (infos: seq<OperatorInfo>)
    ensures |infos| == |os|
  {
    if os == [] then [] else [os[0].Info()] + Infos(os[1..])
  }

  /** `s` stands in the buffer at `p`. */
  ghost predicate At(buf: seq<char>, p: nat, s: string) {
    p + |s| <= |buf| && forall k :: 0 <= k < |s| ==> buf[p + k] == s[k]
  }

  lemma AtSplit(buf: seq<char>, p: nat, s: string, t: string)
    ensures At(buf, p, s + t) <==> At(buf, p, s) && At(buf, p + |s|, t)
  {
    if At(buf, p, s + t) {
      assert forall k :: 0 <= k < |s| ==> (s + t)[k] == s[k];
      assert forall k :: 0 <= k < |t| ==> (s + t)[|s| + k] == t[k];
    }
    if At(buf, p, s) && At(buf, p + |s|, t) {
      forall k | 0 <= k < |s + t|
        ensures buf[p + k] == (s + t)[k]
      {
        if k >= |s| { assert buf[p + |s| + (k - |s|)] == t[k - |s|]; }
      }
    }
  }

  /** A quoted field ends its own token: the text with its quotes. */
  lemma QuotedToken(buf: seq<char>, p: nat, s: string)
    requires Terminated(buf) && At(buf, p, Quoted(s))
    requires forall c :: c in s ==> c != ',' && c != NUL
    ensures p + |s| + 3 < |buf|
    ensures Tokenize(buf, p, ",") == Scan(buf[p + |s| + 2 := NUL], p + |s| + 3, p)
  {
    var e := p + |s| + 2;
    var w := Quoted(s);
    forall k | p <= k < e
      ensures buf[k] != NUL && buf[k] != ','
    {
      assert buf[p + (k - p)] == w[k - p];
      if p < k < e - 1 { assert w[k - p] == s[k - p - 1] && s[k - p - 1] in s; }
    }
    assert buf[p + (|s| + 2)] == w[|s| + 2] == ',';
    TokenAt(buf, p, p, e, ",");
  }

  /** The quoted number: its quotes are delimiters, so the token is the number itself. */
  lemma NumberToken(buf: seq<char>, p: nat, s: string)
    requires Terminated(buf) && At(buf, p, Quoted(s)) && s != [] && forall c :: c in s ==> IsDigit(c)
    ensures p + |s| + 3 < |buf|
    ensures Tokenize(buf, p, ",\"") == Scan(buf[p + |s| + 1 := NUL], p + |s| + 2, p + 1)
  {
    var e := p + |s| + 1;
    var w := Quoted(s);
    forall k | p < k < e
      ensures IsDigit(buf[k])
    {
      assert buf[p + (k - p)] == w[k - p] == s[k - p - 1] && s[k - p - 1] in s;
    }
    assert buf[p + 0] == w[0] == '"' && buf[p + (|s| + 1)] == w[|s| + 1] == '"';
    assert buf[p + (|s| + 2)] == w[|s| + 2] == ',';
    TokenAt(buf, p, p + 1, e, ",\"");
  }

  /** The first and the last field. */
  lemma CharToken(buf: seq<char>, p: nat, t: nat, delims: string)
    requires Terminated(buf) && p <= t <= p + 1 && t + 1 < |buf| && NUL !in delims
    requires t == p + 1 ==> buf[p] in delims
    requires buf[t] != NUL && buf[t] !in delims && buf[t + 1] in delims
    ensures t + 2 < |buf|
    ensures Tokenize(buf, p, delims) == Scan(buf[t + 1 := NUL], t + 2, t)
  {
  }

  /** Where the fields of a printed operator are. */
  lemma FieldsOf(buf: seq<char>, p: nat, o: Operator)
    requires o.status < 4 && At(buf, p, o.Print())
    ensures |o.Print()| == 14 + |o.longName| + |o.shortName| + |o.numeric|
    ensures p + |o.Print()| <= |buf|
    ensures buf[p] == '(' && buf[p + 1] == StatusChar(o.status) && buf[p + 2] == ','
    ensures At(buf, p + 3, Quoted(o.longName))
    ensures At(buf, p + |o.longName| + 6, Quoted(o.shortName))
    ensures At(buf, p + |o.longName| + |o.shortName| + 9, Quoted(o.numeric))
    ensures var q := p + |o.longName| + |o.shortName| + |o.numeric| + 12;
      buf[q - 1] == ',' && buf[q] == (if o.utran then '2' else '0') && buf[q + 1] == ')'
  {
    var last := [if o.utran then '2' else '0'] + ")";
    var (a, b, c) := (Quoted(o.longName), Quoted(o.shortName), Quoted(o.numeric));
    var head := "(" + [StatusChar(o.status)] + ",";
    AtSplit(buf, p, head, a + (b + (c + last)));
    AtSplit(buf, p + 3, a, b + (c + last));
    AtSplit(buf, p + 3 + |a|, b, c + last);
    AtSplit(buf, p + 3 + |a| + |b|, c, last);
    assert buf[p + 0] == head[0] && buf[p + 1] == head[1] && buf[p + 2] == head[2];
    var q := p + 3 + |a| + |b| + |c|;
    assert buf[q + 0] == last[0] && buf[q + 1] == last[1];
    assert buf[p + 3 + |a| + |b| + (|c| - 1)] == c[|c| - 1] == ',';
  }

  /** The position of the `n`-th delimiter that parsing cuts out of an operator at `p`. */
  function CutAt(p: nat, o: Operator, n: nat): nat {
    if n == 1 then p + 2
    else if n == 2 then p + |o.longName| + 5
    else if n == 3 then p + |o.longName| + |o.shortName| + 8
    else if n == 4 then p + |o.longName| + |o.shortName| + |o.numeric| + 10
    else p + |o.longName| + |o.shortName| + |o.numeric| + 13
  }

  /** The buffer after `n` calls of strtok on an operator printed at `p`. */
  ghost function Cut(buf: seq<char>, p: nat, o: Operator, n: nat): (b: seq<char>)
    ensures |b| == |buf|
  {
    if n == 0 || CutAt(p, o, n) >= |buf| then buf else Cut(buf, p, o, n - 1)[CutAt(p, o, n) := NUL]
  }

  lemma {:induction false} CutKeeps(buf: seq<char>, p: nat, o: Operator, n: nat)
    requires n <= 5
    ensures forall k :: 0 <= k < |buf| && (forall m :: 1 <= m <= n ==> k != CutAt(p, o, m)) ==>
              Cut(buf, p, o, n)[k] == buf[k]
    ensures CutAt(p, o, 5) < |buf| ==> forall m :: 1 <= m <= n ==> Cut(buf, p, o, n)[CutAt(p, o, m)] == NUL
    ensures Terminated(buf) ==> Terminated(Cut(buf, p, o, n))
  {
    if n > 0 {
      CutKeeps(buf, p, o, n - 1);
    }
  }

  lemma CutTerminated(buf: seq<char>, p: nat, o: Operator, n: nat)
    requires n <= 5 && Terminated(buf)
    ensures Terminated(Cut(buf, p, o, n))
  {
  }

  lemma CutNul(buf: seq<char>, p: nat, o: Operator, m: nat)
    requires 1 <= m <= 5 && CutAt(p, o, 5) < |buf|
    ensures CutAt(p, o, m) < |buf| && Cut(buf, p, o, 5)[CutAt(p, o, m)] == NUL
  {
    CutKeeps(buf, p, o, 5);
  }

  lemma AtCut(buf: seq<char>, p: nat, o: Operator, n: nat, q: nat, s: string)
    requires 0 < n <= 5 && At(buf, q, s) && q > CutAt(p, o, n)
    ensures At(Cut(buf, p, o, n), q, s)
  {
  }

  lemma CutStatus(buf: seq<char>, p: nat, o: Operator)
    requires Terminated(buf) && o.Printable() && At(buf, p, o.Print())
    ensures p + 3 < |buf| && Tokenize(buf, p + 1, ",") == Scan(Cut(buf, p, o, 1), p + 3, p + 1)
  {
    FieldsOf(buf, p, o);
    CharToken(buf, p + 1, p + 1, ",");
    assert Cut(buf, p, o, 0) == buf;
  }

  lemma CutLongName(buf: seq<char>, p: nat, o: Operator)
    requires Terminated(buf) && o.Printable() && At(buf, p, o.Print())
    ensures Terminated(Cut(buf, p, o, 1)) && p + |o.longName| + 6 < |buf|
    ensures Tokenize(Cut(buf, p, o, 1), p + 3, ",") == Scan(Cut(buf, p, o, 2), p + |o.longName| + 6, p + 3)
  {
    FieldsOf(buf, p, o);
    CutTerminated(buf, p, o, 1);
    AtCut(buf, p, o, 1, p + 3, Quoted(o.longName));
    QuotedToken(Cut(buf, p, o, 1), p + 3, o.longName);
  }

  lemma CutShortName(buf: seq<char>, p: nat, o: Operator)
    requires Terminated(buf) && o.Printable() && At(buf, p, o.Print())
    ensures var q := p + |o.longName| + 6;
      && Terminated(Cut(buf, p, o, 2)) && q + |o.shortName| + 3 < |buf|
      && Tokenize(Cut(buf, p, o, 2), q, ",") == Scan(Cut(buf, p, o, 3), q + |o.shortName| + 3, q)
  {
    FieldsOf(buf, p, o);
    CutTerminated(buf, p, o, 2);
    AtCut(buf, p, o, 2, p + |o.longName| + 6, Quoted(o.shortName));
    QuotedToken(Cut(buf, p, o, 2), p + |o.longName| + 6, o.shortName);
  }

  lemma CutNumber(buf: seq<char>, p: nat, o: Operator)
    requires Terminated(buf) && o.Printable() && At(buf, p, o.Print())
    ensures var q := p + |o.longName| + |o.shortName| + 9;
      && Terminated(Cut(buf, p, o, 3)) && q + |o.numeric| + 2 < |buf|
      && Tokenize(Cut(buf, p, o, 3), q, ",\"") == Scan(Cut(buf, p, o, 4), q + |o.numeric| + 2, q + 1)
  {
    var q := p + |o.longName| + |o.shortName| + 9;
    FieldsOf(buf, p, o);
    CutTerminated(buf, p, o, 3);
    AtCut(buf, p, o, 3, q, Quoted(o.numeric));
    NumberToken(Cut(buf, p, o, 3), q, o.numeric);
  }

  lemma CutTechnology(buf: seq<char>, p: nat, o: Operator)
    requires Terminated(buf) && o.Printable() && At(buf, p, o.Print())
    ensures var q := p + |o.longName| + |o.shortName| + |o.numeric| + 11;
      && Terminated(Cut(buf, p, o, 4)) && q + 3 < |buf|
      && Tokenize(Cut(buf, p, o, 4), q, ",\")") == Scan(Cut(buf, p, o, 5), q + 3, q + 1)
  {
    var q := p + |o.longName| + |o.shortName| + |o.numeric| + 11;
    FieldsOf(buf, p, o);
    CutKeeps(buf, p, o, 4);
    CharToken(Cut(buf, p, o, 4), q, q + 1, ",\")");
  }

  /** The tokens of a printed operator, although each call of strtok scans a buffer that the
      calls before it have cut. */
  lemma TokensOfPrinted(buf: seq<char>, p: nat, o: Operator)
    requires Terminated(buf) && o.Printable() && At(buf, p, o.Print())
    ensures p + 1 < |buf|
    ensures FindTokens(buf, p + 1) ==
            Tokens(Cut(buf, p, o, 5), p + 1, p + 3, p + |o.longName| + |o.shortName| + 10,
                   p + |o.longName| + |o.shortName| + |o.numeric| + 12)
  {
    hide Cut, Tokenize, At, Operator.Print;
    CutStatus(buf, p, o);
    CutLongName(buf, p, o);
    CutShortName(buf, p, o);
    CutNumber(buf, p, o);
    CutTechnology(buf, p, o);
  }

  lemma CutIsElsewhere(buf: seq<char>, p: nat, o: Operator, from: nat, to: nat)
    requires to <= |buf| && CutAt(p, o, 5) < |buf|
    requires forall m :: 1 <= m <= 5 ==> CutAt(p, o, m) < from || to <= CutAt(p, o, m)
    ensures forall k :: from <= k < to ==> Cut(buf, p, o, 5)[k] == buf[k]
  {
    CutKeeps(buf, p, o, 5);
  }

  /** What the parser reads of a printed operator, once it is cut up. */
  lemma NameOfPrinted(buf: seq<char>, p: nat, o: Operator)
    requires Terminated(buf) && o.Printable() && At(buf, p, o.Print())
    ensures p + 3 < |buf| && Terminated(Cut(buf, p, o, 5))
    ensures CString(Cut(buf, p, o, 5), p + 3) == "\"" + o.longName + "\""
  {
    FieldsOf(buf, p, o);
    CutTerminated(buf, p, o, 5);
    var b := Cut(buf, p, o, 5);
    CutNul(buf, p, o, 2);
    CutIsElsewhere(buf, p, o, p + 3, p + 5 + |o.longName|);
    QuotedIn(buf, b, p + 3, o.longName);
    CStringIs(b, p + 3, "\"" + o.longName + "\"");
  }

  lemma NumberOfPrinted(buf: seq<char>, p: nat, o: Operator)
    requires Terminated(buf) && o.Printable() && At(buf, p, o.Print())
    ensures var q := p + |o.longName| + |o.shortName| + 9;
      q + 1 < |buf| && Terminated(Cut(buf, p, o, 5)) && CString(Cut(buf, p, o, 5), q + 1) == o.numeric
  {
    var q := p + |o.longName| + |o.shortName| + 9;
    FieldsOf(buf, p, o);
    CutTerminated(buf, p, o, 5);
    var b := Cut(buf, p, o, 5);
    CutNul(buf, p, o, 4);
    CutIsElsewhere(buf, p, o, q + 1, q + 1 + |o.numeric|);
    DigitsIn(buf, b, q, o.numeric);
    CStringIs(b, q + 1, o.numeric);
  }

  lemma CharsOfPrinted(buf: seq<char>, p: nat, o: Operator)
    requires Terminated(buf) && o.Printable() && At(buf, p, o.Print())
    ensures p + |o.Print()| <= |buf| && |o.Print()| == |o.longName| + |o.shortName| + |o.numeric| + 14
    ensures var b := Cut(buf, p, o, 5);
      && Terminated(b) && b[p + 1] == StatusChar(o.status)
      && b[p + |o.Print()| - 2] == (if o.utran then '2' else '0')
      && |CString(b, p + |o.Print()| - 2)| == 1
      && b[p + |o.Print()|..] == buf[p + |o.Print()|..]
  {
    FieldsOf(buf, p, o);
    CutTerminated(buf, p, o, 5);
    var b, t := Cut(buf, p, o, 5), p + |o.Print()| - 2;
    CutNul(buf, p, o, 5);
    CutIsElsewhere(buf, p, o, p + 1, p + 2);
    CutIsElsewhere(buf, p, o, t, t + 1);
    CutIsElsewhere(buf, p, o, t + 2, |buf|);
    CStringIs(b, t, [if o.utran then '2' else '0']);
  }

  lemma QuotedIn(buf: seq<char>, b: seq<char>, p: nat, s: string)
    requires At(buf, p, Quoted(s)) && Plain(s) && |b| == |buf|
    requires forall k :: p <= k < p + |s| + 2 ==> b[k] == buf[k]
    ensures forall k :: p <= k < p + |s| + 2 ==> b[k] == ("\"" + s + "\"")[k - p] && b[k] != NUL
  {
    var w := Quoted(s);
    forall k | p <= k < p + |s| + 2
      ensures b[k] == ("\"" + s + "\"")[k - p] && b[k] != NUL
    {
      assert buf[p + (k - p)] == w[k - p];
      if p < k <= p + |s| { assert w[k - p] == s[k - p - 1] && s[k - p - 1] in s; }
    }
  }

  lemma DigitsIn(buf: seq<char>, b: seq<char>, p: nat, s: string)
    requires At(buf, p, Quoted(s)) && (forall c :: c in s ==> IsDigit(c)) && |b| == |buf|
    requires forall k :: p + 1 <= k < p + |s| + 1 ==> b[k] == buf[k]
    ensures forall k :: p + 1 <= k < p + 1 + |s| ==> b[k] == s[k - p - 1] && b[k] != NUL
  {
    var w := Quoted(s);
    forall k | p + 1 <= k < p + 1 + |s|
      ensures b[k] == s[k - p - 1] && b[k] != NUL
    {
      assert buf[p + (k - p)] == w[k - p] == s[k - p - 1] && s[k - p - 1] in s;
    }
  }

  /** Although each token is cut out of the buffer that is still being scanned, the parser
      makes of a printed operator exactly that operator, and leaves the rest alone. */
  lemma ParsePrinted(buf: seq<char>, p: nat, o: Operator)
    requires Terminated(buf) && o.Printable() && At(buf, p, o.Print())
    ensures p + |o.Print()| <= |buf| && p + 1 < |buf|
    ensures ParseOp(buf, p + 1, |o.Print()|, NO_OPERATOR) == Parsed(Cut(buf, p, o, 5), o.Info())
    ensures Cut(buf, p, o, 5)[p + |o.Print()|..] == buf[p + |o.Print()|..] && Terminated(Cut(buf, p, o, 5))
  {
    hide FindTokens, CString, Cut, At, FillInfo, ParseOp, Plain, IsNumeral, Operator.Info, Operator.Print;
    hide Quoted, StatusChar, Zeros, CopyInto, Code, Strtol, Tokenize, Skip, Stop;
    TokensOfPrinted(buf, p, o);
    NameOfPrinted(buf, p, o);
    NumberOfPrinted(buf, p, o);
    CharsOfPrinted(buf, p, o);
    var b, opnum, technology := Cut(buf, p, o, 5), p + |o.longName| + |o.shortName| + 10, p + |o.Print()| - 2;
    FillPrinted(b, p + 1, p + 3, opnum, technology, o);
    ParseOpFills(buf, p + 1, |o.Print()|, NO_OPERATOR);
  }

  /** With its tokens found and within its length, an operator is what they fill in. */
  lemma ParseOpFills(buf: seq<char>, start: nat, len: nat, info: OperatorInfo)
    requires Terminated(buf) && start < |buf|
    ensures var t := FindTokens(buf, start);
      t.status >= 0 && t.opname >= 0 && t.opnum >= 0 && t.technology >= 0
      && t.technology + |CString(t.buf, t.technology)| - start <= len ==>
        ParseOp(buf, start, len, info) == FillInfo(t.buf, t.status, t.opname, t.opnum, t.technology, info)
  {
    hide FindTokens, CString, FillInfo;
  }

  lemma FillPrinted(b: seq<char>, status: nat, opname: nat, opnum: nat, technology: nat, o: Operator)
    requires Terminated(b) && status < |b| && opname < |b| && opnum < |b| && technology < |b|
    requires o.Printable() && b[status] == StatusChar(o.status) && b[technology] == if o.utran then '2' else '0'
    requires CString(b, opname) == "\"" + o.longName + "\"" && CString(b, opnum) == o.numeric
    ensures FillInfo(b, status, opname, opnum, technology, NO_OPERATOR) == Parsed(b, o.Info())
  {
    StrtolIsCode(o.numeric);
    hide CString, Strtol, Code;
    var name := CString(b, opname);
    assert name[1..|name| - 1] == o.longName;
    assert CopyInto(Zeros(30), o.longName) == o.longName + Zeros(30 - |o.longName|);
    assert CopyInto(Zeros(4), if o.utran then "3G" else "2G") == (if o.utran then "3G" else "2G") + Zeros(2);
  }

  // ---- The whole list ----

  lemma {:induction false} NoCloseInside(buf: seq<char>, p: nat, o: Operator)
    requires o.Printable() && At(buf, p, o.Print()) && p + |o.Print()| <= |buf|
    ensures |o.Print()| > 0 && buf[p + |o.Print()| - 1] == ')'
    ensures forall k :: p <= k < p + |o.Print()| - 1 ==> buf[k] != ')'
  {
    FieldsOf(buf, p, o);
    var (q2, q3) := (p + 3, p + |o.longName| + 6);
    var q4 := q3 + |o.shortName| + 3;
    QuotedIn(buf, buf, q2, o.longName);
    QuotedIn(buf, buf, q3, o.shortName);
    DigitsIn(buf, buf, q4, o.numeric);
    forall k | q2 <= k < q2 + |o.longName| + 2 ensures buf[k] != ')' { QuotedHasNoClose(o.longName, k - q2); }
    forall k | q3 <= k < q3 + |o.shortName| + 2 ensures buf[k] != ')' { QuotedHasNoClose(o.shortName, k - q3); }
    forall k | q4 + 1 <= k < q4 + 1 + |o.numeric| ensures buf[k] != ')' { assert o.numeric[k - q4 - 1] in o.numeric; }
    var (a, b, c) := (Quoted(o.longName), Quoted(o.shortName), Quoted(o.numeric));
    assert buf[q2 + (|a| - 1)] == a[|a| - 1] && buf[q3 + (|b| - 1)] == b[|b| - 1];
    assert buf[q4 + 0] == c[0] && buf[q4 + (|c| - 2)] == c[|c| - 2] && buf[q4 + (|c| - 1)] == c[|c| - 1];
  }

  lemma QuotedHasNoClose(s: string, k: nat)
    requires Plain(s) && k < |s| + 2
    ensures ("\"" + s + "\"")[k] != ')'
  {
    if 0 < k <= |s| { assert s[k - 1] in s; }
  }

  lemma PastIs(buf: seq<char>, p: nat, c: char, limit: nat, q: nat)
    requires p <= q < limit <= |buf| && buf[q] == c && forall k :: p <= k < q ==> buf[k] != c
    ensures Past(buf, p, c, limit) == q + 1
  {
  }

  lemma PastNone(buf: seq<char>, p: nat, c: char, limit: nat)
    requires p < limit <= |buf| && forall k :: p <= k < limit ==> buf[k] != c
    ensures Past(buf, p, c, limit) == limit
  {
  }

  /** What follows the list stands at `p`. */
  ghost predicate Ends(buf: seq<char>, p: nat, trailer: Trailer) {
    match trailer
    case NoTrailer => p + 1 < BUF_SIZE && forall k :: p <= k < |buf| ==> buf[k] != ')'
    case Modes(m, _) => trailer.Printable() && At(buf, p, ",,(" + (m + ")")) && p + |m| + 5 < BUF_SIZE
  }

  /** The rest of the list stands at `ptr`; when none of it is left, `ptr` is one character
      past its end. */
  ghost predicate ListAt(buf: seq<char>, ptr: nat, rest: seq<Listed>, trailer: Trailer) {
    && |buf| == BUF_SIZE && Terminated(buf)
    && if rest == [] then ptr > 0 && Ends(buf, ptr - 1, trailer)
       else At(buf, ptr, PrintList(rest)) && Ends(buf, ptr + |PrintList(rest)|, trailer)
  }

  lemma EndsSurvives(buf: seq<char>, b: seq<char>, p: nat, q: nat, trailer: Trailer)
    requires Ends(buf, p, trailer) && q <= p && |b| == |buf| && q <= |buf| && b[q..] == buf[q..]
    ensures Ends(b, p, trailer)
  {
  }

  lemma NextInList(buf: seq<char>, ptr: nat, rest: seq<Listed>, trailer: Trailer, b: seq<char>)
    requires rest != [] && ListAt(buf, ptr, rest, trailer)
    requires var q := ptr + |rest[0].Print()|;
      |b| == |buf| && Terminated(b) && q <= |buf| && b[q..] == buf[q..]
    ensures ListAt(b, ptr + |rest[0].Print()| + 1, rest[1..], trailer)
  {
    hide Ends, At, PrintList, Operator.Print;
    var q := ptr + |rest[0].Print()|;
    RestStands(buf, ptr, rest);
    EndsSurvives(buf, b, ptr + |PrintList(rest)|, q, trailer);
    if |rest| > 1 {
      AtFrom(buf, b, q, q + 1, PrintList(rest[1..]));
    }
  }

  /** A string stands where it stood, after a change in front of it. */
  lemma AtFrom(buf: seq<char>, b: seq<char>, q: nat, p: nat, s: string)
    requires At(buf, p, s) && q <= p && |b| == |buf| && q <= |buf| && b[q..] == buf[q..]
    ensures At(b, p, s)
  {
    SameFrom(buf, b, q);
  }

  /** Where the list without its first operator stands. */
  lemma RestStands(buf: seq<char>, ptr: nat, rest: seq<Listed>)
    requires rest != [] && At(buf, ptr, PrintList(rest))
    ensures |rest| == 1 ==> rest[1..] == [] && |PrintList(rest)| == |rest[0].Print()|
    ensures |rest| > 1 ==>
      && |PrintList(rest)| == |rest[0].Print()| + 1 + |PrintList(rest[1..])|
      && At(buf, ptr + |rest[0].Print()| + 1, PrintList(rest[1..]))
  {
    if |rest| > 1 {
      var o := rest[0].Print();
      assert PrintList(rest) == o + ("," + PrintList(rest[1..]));
      hide At, PrintList, Operator.Print;
      AtSplit(buf, ptr, o, "," + PrintList(rest[1..]));
      AtSplit(buf, ptr + |o|, ",", PrintList(rest[1..]));
    }
  }

  lemma FirstInList(buf: seq<char>, ptr: nat, rest: seq<Listed>, trailer: Trailer)
    requires rest != [] && ListAt(buf, ptr, rest, trailer)
    ensures At(buf, ptr, rest[0].Print()) && ptr + |rest[0].Print()| + 1 < BUF_SIZE
  {
    if |rest| > 1 {
      AtSplit(buf, ptr, rest[0].Print(), "," + PrintList(rest[1..]));
    }
  }

  /** One turn of the loop on a printed list. */
  lemma ParsesFirst(buf: seq<char>, ptr: nat, i: nat, ops: seq<OperatorInfo>, maxops: nat,
                    rest: seq<Listed>, trailer: Trailer)
    requires rest != [] && ListAt(buf, ptr, rest, trailer) && i < maxops <= |ops| && ops[i] == NO_OPERATOR
    ensures ptr + |rest[0].Print()| + 1 <= BUF_SIZE && Terminated(buf) && |buf| == BUF_SIZE
    ensures Terminated(Cut(buf, ptr, rest[0], 5))
    ensures ParseFrom(buf, ptr, i, ops, maxops) ==
            ParseFrom(Cut(buf, ptr, rest[0], 5), ptr + |rest[0].Print()| + 1, i + 1, ops[i := rest[0].Info()], maxops)
    ensures ListAt(Cut(buf, ptr, rest[0], 5), ptr + |rest[0].Print()| + 1, rest[1..], trailer)
  {
    var o := rest[0];
    ClosesFirst(buf, ptr, rest, trailer);
    ParsePrinted(buf, ptr, o);
    NextInList(buf, ptr, rest, trailer, Cut(buf, ptr, o, 5));
    hide At, Cut, ParseOp, ListAt, PrintList, Past, Operator.Print, Operator.Info;
  }

  lemma ClosesFirst(buf: seq<char>, ptr: nat, rest: seq<Listed>, trailer: Trailer)
    requires rest != [] && ListAt(buf, ptr, rest, trailer)
    ensures At(buf, ptr, rest[0].Print()) && Terminated(buf) && |buf| == BUF_SIZE
    ensures ptr + |rest[0].Print()| + 1 < BUF_SIZE
    ensures Past(buf, ptr, ')', BUF_SIZE) == ptr + |rest[0].Print()|
  {
    var o := rest[0];
    FirstInList(buf, ptr, rest, trailer);
    NoCloseInside(buf, ptr, o);
    hide At;
    PastIs(buf, ptr, ')', BUF_SIZE, ptr + |o.Print()| - 1);
  }

  function Min(a: nat, b: nat): nat {
    if a < b then a else b
  }

  /** What the loop makes of a list: as many operators as there is room for. A trailer that is
      reached, because there is room for more, makes the whole call fail. */
  function Expected(i: nat, ops: seq<OperatorInfo>, maxops: nat, rest: seq<Listed>, trailer: Trailer): Outcome
    requires i <= maxops <= |ops|
  {
    var n := Min(i + |rest|, maxops);
    var filled := ops[..i] + Infos(rest[..n - i]) + ops[n..];
    if n < maxops && trailer.Modes? then Done(-1, filled, 0) else Done(0, filled, n)
  }

  /** The loop stores the printed operators, in order, as far as there is room. */
  lemma {:induction false} ParsesList(buf: seq<char>, ptr: nat, i: nat, ops: seq<OperatorInfo>, maxops: nat,
                                      rest: seq<Listed>, trailer: Trailer)
    requires ListAt(buf, ptr, rest, trailer) && ptr <= BUF_SIZE && i <= maxops <= |ops|
    requires forall j :: i <= j < maxops ==> ops[j] == NO_OPERATOR
    ensures ParseFrom(buf, ptr, i, ops, maxops) == Expected(i, ops, maxops, rest, trailer)
    decreases maxops - i
  {
    hide At, Cut, ParseOp, ParseFrom, ListAt, PrintList, Past, Operator.Print, Operator.Info, Expected, Infos;
    if i == maxops || rest == [] {
      ParsesEnd(buf, ptr, i, ops, maxops, rest, trailer);
    } else {
      ParsesFirst(buf, ptr, i, ops, maxops, rest, trailer);
      var x := rest[0].Info();
      ParsesList(Cut(buf, ptr, rest[0], 5), ptr + |rest[0].Print()| + 1, i + 1, ops[i := x], maxops,
                 rest[1..], trailer);
      ExpectedStep(i, ops, maxops, rest, trailer);
    }
  }

  lemma ExpectedStep(i: nat, ops: seq<OperatorInfo>, maxops: nat, rest: seq<Listed>, trailer: Trailer)
    requires i < maxops <= |ops| && rest != []
    ensures Expected(i, ops, maxops, rest, trailer) ==
            Expected(i + 1, ops[i := rest[0].Info()], maxops, rest[1..], trailer)
  {
    hide Operator.Info;
    var m := Min(i + |rest|, maxops) - i;
    assert rest[..m][1..] == rest[1..][..m - 1];
    Assemble(ops, i, rest[0].Info(), Infos(rest[1..][..m - 1]), i + m);
  }

  lemma Assemble(ops: seq<OperatorInfo>, i: nat, x: OperatorInfo, infos: seq<OperatorInfo>, n: nat)
    requires i < n <= |ops|
    ensures ops[i := x][..i + 1] + infos + ops[i := x][n..] == ops[..i] + ([x] + infos) + ops[n..]
  {
  }

  lemma ParsesEnd(buf: seq<char>, ptr: nat, i: nat, ops: seq<OperatorInfo>, maxops: nat,
                  rest: seq<Listed>, trailer: Trailer)
    requires ListAt(buf, ptr, rest, trailer) && ptr <= BUF_SIZE && i <= maxops <= |ops| && (i == maxops || rest == [])
    ensures ParseFrom(buf, ptr, i, ops, maxops) == Expected(i, ops, maxops, rest, trailer)
  {
    assert rest[..0] == [];
    assert ops == ops[..i] + [] + ops[i..];
    if i < maxops {
      EndOfList(buf, ptr, trailer, ops[i]);
      assert ops == ops[i := ops[i]];
    }
    hide ParseOp, Past, ListAt;
  }

  lemma EndOfList(buf: seq<char>, ptr: nat, trailer: Trailer, info: OperatorInfo)
    requires ListAt(buf, ptr, [], trailer)
    ensures ptr < BUF_SIZE
    ensures trailer.NoTrailer? ==> Past(buf, ptr, ')', BUF_SIZE) == BUF_SIZE
    ensures trailer.Modes? ==>
      && Past(buf, ptr, ')', BUF_SIZE) == ptr + |trailer.modes| + 3 < BUF_SIZE
      && ParseOp(buf, ptr + 1, |trailer.modes| + 3, info) == Failed(FindTokens(buf, ptr + 1).buf, info)
  {
    match trailer
    case NoTrailer => PastNone(buf, ptr, ')', BUF_SIZE);
    case Modes(m, _) =>
      TrailerCloses(buf, ptr - 1, ptr, m);
      BadStatusFails(buf, ptr + 1, ptr + 1, |m| + 3, info);
  }

  /** The parser takes the list of modes at `p` for an operator, wherever in front of it the scan
      begins. */
  lemma TrailerCloses(buf: seq<char>, p: nat, ptr: nat, modes: string)
    requires |buf| == BUF_SIZE && p <= ptr <= p + 1 && At(buf, p, ",,(" + (modes + ")"))
    requires (forall c :: c in modes ==> c != ')' && c != NUL) && p + |modes| + 5 < BUF_SIZE
    ensures buf[p + 1] == ',' && buf[p + 2] == '(' && Past(buf, ptr, ')', BUF_SIZE) == p + |modes| + 4
  {
    AtSplit(buf, p, ",,(", modes + ")");
    AtSplit(buf, p + 3, modes, ")");
    var head, q := ",,(", p + 3 + |modes|;
    assert buf[p + 0] == head[0] == ',' && buf[p + 1] == head[1] == ',' && buf[p + 2] == head[2] == '(';
    assert buf[q + 0] == ")"[0];
    forall k | ptr <= k < q
      ensures buf[k] != ')'
    {
      if k >= p + 3 { assert buf[p + 3 + (k - p - 3)] == modes[k - p - 3] && modes[k - p - 3] in modes; }
    }
    hide At;
    PastIs(buf, ptr, ')', BUF_SIZE, q);
  }

  /** A parenthesis is no status, with or without a comma in front. */
  lemma BadStatusFails(buf: seq<char>, start: nat, t: nat, len: nat, info: OperatorInfo)
    requires Terminated(buf) && start <= t <= start + 1 && t < |buf| && buf[t] == '('
    requires t == start + 1 ==> buf[start] == ','
    ensures ParseOp(buf, start, len, info) == Failed(FindTokens(buf, start).buf, info)
  {
    hide FindTokens, CString, FillInfo;
    var r := FindTokens(buf, start);
    FirstTokenKept(buf, start, t);
    if r.opname >= 0 && r.opnum >= 0 && r.technology >= 0 {
      FillFails(r.buf, r.status, r.opname, r.opnum, r.technology, info);
    }
  }

  lemma FillFails(b: seq<char>, status: nat, opname: nat, opnum: nat, technology: nat, info: OperatorInfo)
    requires Terminated(b) && status < |b| && opname < |b| && opnum < |b| && technology < |b| && b[status] == '('
    ensures FillInfo(b, status, opname, opnum, technology, info) == Failed(b, info)
  {
  }

  lemma FirstTokenKept(buf: seq<char>, start: nat, t: nat)
    requires Terminated(buf) && start <= t <= start + 1 && t < |buf| && buf[t] == '('
    requires t == start + 1 ==> buf[start] == ','
    ensures FindTokens(buf, start).status == t && FindTokens(buf, start).buf[t] == '('
  {
    var t1 := Tokenize(buf, start, ",");
    assert Skip(buf, start, ",") == t;
    assert t1.token == t && t1.buf[t] == '(' && t1.next > t;
    var t2 := Tokenize(t1.buf, t1.next, ",");
    TokenizeFrame(t1.buf, t1.next, ",");
    var t3 := Tokenize(t2.buf, t2.next, ",");
    TokenizeFrame(t2.buf, t2.next, ",");
    var t4 := Tokenize(t3.buf, t3.next, ",\"");
    TokenizeFrame(t3.buf, t3.next, ",\"");
    var t5 := Tokenize(t4.buf, t4.next, ",\")");
    TokenizeFrame(t4.buf, t4.next, ",\")");
    hide Tokenize;
    PrefixKeeps(t1.buf, t2.buf, t1.next, t);
    PrefixKeeps(t2.buf, t3.buf, t2.next, t);
    PrefixKeeps(t3.buf, t4.buf, t3.next, t);
    PrefixKeeps(t4.buf, t5.buf, t4.next, t);
  }

  lemma PrefixKeeps(a: seq<char>, b: seq<char>, n: nat, k: nat)
    requires k < n <= |a| == |b| && a[..n] == b[..n]
    ensures a[k] == b[k]
  {
  }

  /** Parsing a printed list into a zeroed array gives exactly the first of its operators, as
      many as fit, and their number. */
  lemma RoundTrip(os: seq<Listed>, ops: seq<OperatorInfo>, maxops: nat, numOps: int)
    requires |PrintAnswer(os, NoTrailer)| < BUF_SIZE
    requires 0 < maxops <= |ops| && forall j :: 0 <= j < maxops ==> ops[j] == NO_OPERATOR
    ensures var n := Min(|os|, maxops);
      Parse(PrintAnswer(os, NoTrailer), ops, maxops, numOps) == Done(0, Infos(os[..n]) + ops[n..], n)
  {
    hide PrintAnswer, Parse, Infos, Operator.Printable;
    ParsesAnswer(os, NoTrailer, ops, maxops, numOps);
    var n := Min(|os|, maxops);
    NothingBefore(ops, Infos(os[..n]), ops[n..]);
  }

  /** When the answer ends with the supported modes and formats, as the standard allows, the
      call succeeds exactly when the array has no room for another operator. A call that fails
      has stored all the operators, if there are any, but reports none. */
  lemma TrailerNeedsFullArray(os: seq<Listed>, trailer: Trailer, ops: seq<OperatorInfo>, maxops: nat, numOps: int)
    requires trailer.Modes? && trailer.Printable() && |PrintAnswer(os, trailer)| < BUF_SIZE
    requires 0 < maxops <= |ops| && forall j :: 0 <= j < maxops ==> ops[j] == NO_OPERATOR
    ensures Parse(PrintAnswer(os, trailer), ops, maxops, numOps) ==
      if maxops <= |os| then Done(0, Infos(os[..maxops]) + ops[maxops..], maxops)
      else Done(-1, Infos(os) + ops[|os|..], 0)
  {
    hide PrintAnswer, Parse, Infos, Operator.Printable, Trailer.Printable;
    if os == [] {
      OnlyTrailerFails(trailer, ops, maxops, numOps);
      NothingListed(ops);
    } else {
      ParsesAnswer(os, trailer, ops, maxops, numOps);
      var n := Min(|os|, maxops);
      NothingBefore(ops, Infos(os[..n]), ops[n..]);
      assert os[..|os|] == os;
    }
  }

  lemma NothingListed(ops: seq<OperatorInfo>)
    ensures Infos([]) + ops[0..] == ops
  {
  }

  /** An answer without any operators: the parser stumbles over the modes at once. */
  lemma OnlyTrailerFails(trailer: Trailer, ops: seq<OperatorInfo>, maxops: nat, numOps: int)
    requires trailer.Modes? && trailer.Printable() && |PrintAnswer([], trailer)| < BUF_SIZE
    requires 0 < maxops <= |ops|
    ensures Parse(PrintAnswer([], trailer), ops, maxops, numOps) == Done(-1, ops, 0)
  {
    var answer := PrintAnswer([], trailer);
    var buf := answer + Zeros(BUF_SIZE - |answer|);
    OnlyTrailerAt(buf, trailer);
    BadStatusFails(buf, 10, 11, |trailer.modes| + 4, ops[0]);
    hide PrintAnswer, Past, ParseOp, ParseFrom, Zeros, Trailer.Printable;
    FirstFails(buf, |trailer.modes| + 13, ops, maxops);
  }

  lemma FirstFails(buf: seq<char>, close: nat, ops: seq<OperatorInfo>, maxops: nat)
    requires |buf| == BUF_SIZE && Terminated(buf) && 0 < maxops <= |ops|
    requires Past(buf, 9, ')', BUF_SIZE) == close < BUF_SIZE
    requires ParseOp(buf, 10, close - 9, ops[0]).Failed? && ParseOp(buf, 10, close - 9, ops[0]).info == ops[0]
    ensures ParseFrom(buf, 9, 0, ops, maxops) == Done(-1, ops, 0)
  {
    hide Past, ParseOp;
    assert ops[0 := ops[0]] == ops;
  }

  lemma OnlyTrailerAt(buf: seq<char>, trailer: Trailer)
    requires trailer.Modes? && trailer.Printable() && |PrintAnswer([], trailer)| < BUF_SIZE
    requires buf == PrintAnswer([], trailer) + Zeros(BUF_SIZE - |PrintAnswer([], trailer)|)
    ensures Past(buf, 0, ' ', BUF_SIZE - 1) == 9 && |buf| == BUF_SIZE && Terminated(buf)
    ensures buf[10] == ',' && buf[11] == '(' && Past(buf, 9, ')', BUF_SIZE) == |trailer.modes| + 13 < BUF_SIZE
  {
    OnlyTrailerEnds(buf, trailer);
    hide PrintAnswer, Past, At, Trailer.Print, Zeros;
    PastIs(buf, 0, ' ', BUF_SIZE - 1, 8);
    TrailerCloses(buf, 9, 9, trailer.modes);
  }

  lemma OnlyTrailerEnds(buf: seq<char>, trailer: Trailer)
    requires trailer.Modes? && trailer.Printable() && |PrintAnswer([], trailer)| < BUF_SIZE
    requires buf == PrintAnswer([], trailer) + Zeros(BUF_SIZE - |PrintAnswer([], trailer)|)
    ensures |buf| == BUF_SIZE && Terminated(buf) && Ends(buf, 9, trailer)
    ensures buf[8] == ' ' && forall k :: 0 <= k < 8 ==> buf[k] != ' '
  {
    hide Ends, PrintAnswer, Trailer.Print, Trailer.Printable, At, Zeros;
    AnswerIsAt(buf, [], trailer);
    HeadHasOneSpace(buf, 0);
    assert PrintList([]) == [];
    AnswerEnds(buf, 9, trailer);
  }

  lemma ParsesAnswer(os: seq<Listed>, trailer: Trailer, ops: seq<OperatorInfo>, maxops: nat, numOps: int)
    requires |PrintAnswer(os, trailer)| < BUF_SIZE && trailer.Printable() && (trailer.Modes? ==> os != [])
    requires 0 < maxops <= |ops| && forall j :: 0 <= j < maxops ==> ops[j] == NO_OPERATOR
    ensures Parse(PrintAnswer(os, trailer), ops, maxops, numOps) == Expected(0, ops, maxops, os, trailer)
  {
    hide ListAt, ParseFrom, PrintAnswer, PrintList, Infos, Past, Zeros, Operator.Printable, Trailer.Printable, Expected;
    var answer := PrintAnswer(os, trailer);
    var buf := answer + Zeros(BUF_SIZE - |answer|);
    AnswerStart(buf, os, trailer);
    ParsesList(buf, 9, 0, ops, maxops, os, trailer);
  }

  lemma NothingBefore(ops: seq<OperatorInfo>, a: seq<OperatorInfo>, b: seq<OperatorInfo>)
    ensures ops[..0] + a + b == a + b
  {
  }

  lemma AnswerStart(buf: seq<char>, os: seq<Listed>, trailer: Trailer)
    requires |PrintAnswer(os, trailer)| < BUF_SIZE && trailer.Printable() && (trailer.Modes? ==> os != [])
    requires buf == PrintAnswer(os, trailer) + Zeros(BUF_SIZE - |PrintAnswer(os, trailer)|)
    ensures Past(buf, 0, ' ', BUF_SIZE - 1) == 9 && Terminated(buf) && ListAt(buf, 9, os, trailer)
  {
    AnswerParts(buf, os, trailer);
    hide PrintAnswer, PrintList, Past, At;
    PastIs(buf, 0, ' ', BUF_SIZE - 1, 8);
  }

  lemma AnswerParts(buf: seq<char>, os: seq<Listed>, trailer: Trailer)
    requires |PrintAnswer(os, trailer)| < BUF_SIZE && trailer.Printable() && (trailer.Modes? ==> os != [])
    requires buf == PrintAnswer(os, trailer) + Zeros(BUF_SIZE - |PrintAnswer(os, trailer)|)
    ensures buf[8] == ' ' && forall k :: 0 <= k < 8 ==> buf[k] != ' '
    ensures ListAt(buf, 9, os, trailer)
  {
    hide Ends, PrintAnswer, Trailer.Print, Trailer.Printable, At, Zeros, Operator.Print;
    AnswerIsAt(buf, os, trailer);
    HeadHasOneSpace(buf, 0);
    AnswerEnds(buf, 9 + |PrintList(os)|, trailer);
    if os == [] {
      EmptyListEnds(buf);
    }
  }

  lemma AnswerIsAt(buf: seq<char>, os: seq<Listed>, trailer: Trailer)
    requires |PrintAnswer(os, trailer)| < BUF_SIZE
    requires buf == PrintAnswer(os, trailer) + Zeros(BUF_SIZE - |PrintAnswer(os, trailer)|)
    ensures |buf| == BUF_SIZE && Terminated(buf)
    ensures At(buf, 0, "\r\n+COPS: ") && At(buf, 9, PrintList(os))
    ensures var p := 9 + |PrintList(os)|;
      && At(buf, p, trailer.Print()) && At(buf, p + |trailer.Print()|, "\r\n\r\nOK\r\n")
      && p + |trailer.Print()| + 8 < BUF_SIZE
      && forall k :: p + |trailer.Print()| + 8 <= k < |buf| ==> buf[k] == NUL
  {
    hide PrintList, Trailer.Print, At;
    var head, list, tail := "\r\n+COPS: ", PrintList(os), "\r\n\r\nOK\r\n";
    var ending := trailer.Print() + tail;
    assert PrintAnswer(os, trailer) == head + (list + ending);
    AtFront(buf, head + (list + ending));
    AtSplit(buf, 0, head, list + ending);
    AtSplit(buf, 9, list, ending);
    AtSplit(buf, 9 + |list|, trailer.Print(), tail);
    assert buf[|buf| - 1] == NUL;
  }

  lemma EmptyListEnds(buf: seq<char>)
    requires Ends(buf, 9, NoTrailer) && |buf| > 8 && buf[8] == ' '
    ensures Ends(buf, 8, NoTrailer)
  {
  }

  lemma AnswerEnds(buf: seq<char>, p: nat, trailer: Trailer)
    requires |buf| == BUF_SIZE && trailer.Printable() && At(buf, p, trailer.Print())
    requires At(buf, p + |trailer.Print()|, "\r\n\r\nOK\r\n") && p + |trailer.Print()| + 8 < BUF_SIZE
    requires forall k :: p + |trailer.Print()| + 8 <= k < |buf| ==> buf[k] == NUL
    ensures Ends(buf, p, trailer)
  {
    match trailer
    case NoTrailer => NothingClosesAfter(buf, p);
    case Modes(m, f) =>
      var rest := ",(" + (f + ")");
      AtSplit(buf, p, ",,(", m + ("),(" + (f + ")")));
      AtSplit(buf, p + 3, m, "),(" + (f + ")"));
      assert "),(" + (f + ")") == ")" + rest;
      AtSplit(buf, p + 3 + |m|, ")", rest);
      AtSplit(buf, p + 3, m, ")");
      AtSplit(buf, p, ",,(", m + ")");
  }

  lemma AtFront(buf: seq<char>, s: string)
    requires |s| <= |buf| && buf[..|s|] == s
    ensures At(buf, 0, s)
  {
  }

  lemma HeadHasOneSpace(buf: seq<char>, p: nat)
    requires At(buf, p, "\r\n+COPS: ")
    ensures buf[p + 8] == ' ' && forall k :: p <= k < p + 8 ==> buf[k] != ' '
  {
    var head := "\r\n+COPS: ";
    forall k | p <= k < p + 9
      ensures buf[k] == head[k - p]
    {
      assert buf[p + (k - p)] == head[k - p];
    }
    assert head[8] == ' ' && forall k :: 0 <= k < 8 ==> head[k] != ' ';
  }

  lemma NothingClosesAfter(buf: seq<char>, p: nat)
    requires At(buf, p, "\r\n\r\nOK\r\n") && forall k :: p + 8 <= k < |buf| ==> buf[k] == NUL
    ensures forall k :: p <= k < |buf| ==> buf[k] != ')'
  {
    var tail := "\r\n\r\nOK\r\n";
    forall k | p <= k < |buf|
      ensures buf[k] != ')'
    {
      if k < p + 8 { assert buf[p + (k - p)] == tail[k - p]; }
    }
  }
}
