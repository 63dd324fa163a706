/** Output scripts: building pushes, reading them back, and telling the standard kinds apart. */
module Scripts {
  import opened Bytes
  import opened BlockHeaders
  import opened Wrappers

  const OP_0 := 0x00
  const OP_PUSHDATA1 := 0x4c
  const OP_PUSHDATA2 := 0x4d
  const OP_PUSHDATA4 := 0x4e
  const OP_RETURN := 0x6a
  const OP_DUP := 0x76
  const OP_EQUALVERIFY := 0x88
  const OP_SHA256 := 0xa8
  const OP_CHECKSIG := 0xac
  const OP_INVALIDOPCODE := 0xff
  const MAX_SCRIPT_SIZE := 10000
  const MAX_PUSH := 0xffff

  /** A push: its opcode announces the length itself or the width of a length field. */
  datatype Push = Push(opcode: Byte, data: seq<Byte>)

  /** What reading one operation leaves behind. A failed read may have moved the position. */
  datatype Step = Step(ok: bool, pc: nat, opcode: Byte, data: seq<Byte>)

  datatype TxoutType = NONSTANDARD | PUBKEYHASH | NULL_DATA

  predicate IsPush(opcode: Byte) {
    opcode <= OP_PUSHDATA4
  }

  /** How many length bytes follow an opcode. */
  function Width(opcode: Byte): nat {
    if opcode == OP_PUSHDATA1 then 1 else if opcode == OP_PUSHDATA2 then 2 else if opcode == OP_PUSHDATA4 then 4 else 0
  }

  /** The pushes there are: nothing, up to 75 bytes directly, or a length field, of which the widest is
      held to the size of a script. */
  predicate Fits(p: Push) {
    IsPush(p.opcode)
    && (if p.opcode == OP_PUSHDATA1 then |p.data| <= 0xff
        else if p.opcode == OP_PUSHDATA2 then |p.data| <= 0xffff
        else if p.opcode == OP_PUSHDATA4 then |p.data| <= MAX_SCRIPT_SIZE
        else |p.data| == p.opcode as int)
  }

  function Encoded(p: Push): seq<Byte> {
    [p.opcode] + LE(|p.data|, Width(p.opcode)) + p.data
  }

  function AllEncoded(ps: seq<Push>): seq<Byte> {
    if ps == [] then [] else Encoded(ps[0]) + AllEncoded(ps[1..])
  }

  function Joined(ps: seq<Push>): seq<Byte> {
    if ps == [] then [] else ps[0].data + Joined(ps[1..])
  }

  /** The opcode `PushData` chooses for a payload of this length. */
  function OpcodeFor(len: nat): Byte {
    if len <= 75 then len else if len <= 0xff then OP_PUSHDATA1 else if len <= 0xffff then OP_PUSHDATA2 else OP_PUSHDATA4
  }

  function Pushed(data: seq<Byte>): seq<Byte> {
    Encoded(Push(OpcodeFor(|data|), data))
  }

  // ---- Reading one operation ----

  function NextOp(s: seq<Byte>, pc: nat): Step {
    if pc >= |s| then Step(false, pc, OP_INVALIDOPCODE, [])
    else
      var op := s[pc];
      if pc + 1 + Width(op) > |s| then Step(false, pc + 1, OP_INVALIDOPCODE, [])
      else
        var at := pc + 1 + Width(op);
        var len := if Width(op) > 0 then FromLE(s[pc + 1..at]) else if IsPush(op) then op else 0;
        if at + len > |s| || (op == OP_PUSHDATA4 && len > MAX_SCRIPT_SIZE) then Step(false, at, OP_INVALIDOPCODE, [])
        else Step(true, at + len, op, s[at..at + len])
  }

  lemma FromLEShort(s: seq<Byte>)
    requires |s| == 1 || |s| == 2 || |s| == 4
    ensures |s| == 1 ==> FromLE(s) <= 0xff
    ensures |s| == 2 ==> FromLE(s) <= 0xffff
    ensures |s| == 4 ==> FromLE(s) < WORD
  {
    FromLEBound(s);
    ShortPowers();
  }

  lemma ShortPowers()
    ensures Pow(256, 0) == 1 && Pow(256, 1) == 256 && Pow(256, 2) == 0x1_0000 && Pow(256, 4) == WORD
  {
    ByteLimits();
  }

  /** Whatever is read as a push is there, byte for byte, between the two positions. */
  lemma ReadIsThere(s: seq<Byte>, pc: nat)
    requires NextOp(s, pc).ok && IsPush(NextOp(s, pc).opcode)
    ensures var r := NextOp(s, pc); var p := Push(r.opcode, r.data);
      && pc < r.pc <= |s| && s[pc..r.pc] == Encoded(p) && Fits(p)
  {
    var op := s[pc];
    var at, r := pc + 1 + Width(op), NextOp(s, pc);
    if Width(op) > 0 {
      FromLEShort(s[pc + 1..at]);
      LEofFromLE(s[pc + 1..at]);
    }
    Cut3(s, pc, at, r.pc);
  }

  lemma Cut3(s: seq<Byte>, pc: nat, at: nat, end: nat)
    requires pc < at <= end <= |s|
    ensures s[pc..end] == [s[pc]] + s[pc + 1..at] + s[at..end]
  {}

  /** Every push that fits is read back, wherever it stands. */
  lemma ThereIsRead(front: seq<Byte>, p: Push, back: seq<Byte>)
    requires Fits(p)
    ensures NextOp(front + (Encoded(p) + back), |front|) == Step(true, |front| + |Encoded(p)|, p.opcode, p.data)
  {
    var w := Width(p.opcode);
    ShortPowers();
    if w > 0 { FromLEofLE(|p.data|, w); }
    Pieces(front, p.opcode, LE(|p.data|, w), p.data, back);
  }

  lemma Pieces(front: seq<Byte>, op: Byte, len: seq<Byte>, data: seq<Byte>, back: seq<Byte>)
    ensures var s := front + (([op] + len + data) + back); var at := |front| + 1 + |len|;
      && |s| == at + |data| + |back| && s[|front|] == op && s[|front| + 1..at] == len && s[at..at + |data|] == data
  {
    var s := front + (([op] + len + data) + back);
    assert s == (front + [op]) + (len + (data + back));
    assert s == (front + [op] + len) + (data + back);
  }

  /** A payload read after its own push comes back, with the position behind it, exactly when it is no
      longer than 65535 bytes: a longer one is written with a length that reading refuses. */
  lemma PushRoundTrip(front: seq<Byte>, data: seq<Byte>, back: seq<Byte>)
    ensures NextOp(front + (Pushed(data) + back), |front|) == Step(true, |front| + |Pushed(data)|, OpcodeFor(|data|), data)
      <==> |data| <= MAX_PUSH
  {
    var p := Push(OpcodeFor(|data|), data);
    if |data| <= MAX_PUSH {
      ThereIsRead(front, p, back);
    } else {
      Pieces(front, p.opcode, LE(|data|, 4), data, back);
    }
  }

  // ---- Reading a list of pushes ----

  /** The pushes from a position to the end, unless something else is in between. */
  function Pushes(s: seq<Byte>, pc: nat): Option<seq<Push>>
    decreases |s| - pc
  {
    if pc >= |s| then Some([])
    else
      var r := NextOp(s, pc);
      if !r.ok || !IsPush(r.opcode) then None
      else Before([Push(r.opcode, r.data)], Pushes(s, r.pc))
  }

  function Before(ps: seq<Push>, more: Option<seq<Push>>): Option<seq<Push>> {
    if more.Some? then Some(ps + more.value) else None
  }

  predicate AllFit(ps: seq<Push>) {
    forall i :: 0 <= i < |ps| ==> Fits(ps[i])
  }

  lemma {:induction false} PushesAreThere(s: seq<Byte>, pc: nat)
    requires pc <= |s| && Pushes(s, pc).Some?
    ensures AllFit(Pushes(s, pc).value) && s[pc..] == AllEncoded(Pushes(s, pc).value)
    decreases |s| - pc
  {
    if pc < |s| {
      var r := NextOp(s, pc);
      ReadIsThere(s, pc);
      PushesAreThere(s, r.pc);
      var p, more := Push(r.opcode, r.data), Pushes(s, r.pc).value;
      assert ([p] + more)[1..] == more;
      assert s[pc..] == s[pc..r.pc] + s[r.pc..];
    }
  }

  lemma {:induction false} PushesAreRead(front: seq<Byte>, ps: seq<Push>)
    requires AllFit(ps)
    ensures Pushes(front + AllEncoded(ps), |front|) == Some(ps)
    decreases |ps|
  {
    if ps != [] {
      var e, more := Encoded(ps[0]), AllEncoded(ps[1..]);
      PushesAreRead(front + e, ps[1..]);
      OnePush(front, ps[0], more, front + AllEncoded(ps));
      assert [ps[0]] + ps[1..] == ps;
    }
  }

  lemma OnePush(front: seq<Byte>, p: Push, more: seq<Byte>, s: seq<Byte>)
    requires Fits(p) && s == front + (Encoded(p) + more)
    ensures s == (front + Encoded(p)) + more
    ensures Pushes(s, |front|) == Before([p], Pushes(s, |front + Encoded(p)|))
  {
    ThereIsRead(front, p, more);
    PushesStep(s, |front|, p, |front + Encoded(p)|);
  }

  lemma PushesStep(s: seq<Byte>, pc: nat, p: Push, next: nat)
    requires pc < |s| && IsPush(p.opcode) && NextOp(s, pc) == Step(true, next, p.opcode, p.data)
    ensures Pushes(s, pc) == Before([p], Pushes(s, next))
  {
    assert p == Push(p.opcode, p.data);
  }

  // ---- The standard kinds ----

  function PayToPubkeyHash(h: Bytes32): seq<Byte> {
    [OP_DUP, OP_SHA256, 0x20] + h + [OP_EQUALVERIFY, OP_CHECKSIG]
  }

  function NullData(ps: seq<Push>): seq<Byte> {
    [OP_RETURN] + AllEncoded(ps)
  }

  class Script {
    var bytes: seq<Byte>

    constructor ()
      ensures bytes == []
    {
      bytes := [];
    }

    method Add(opcode: Byte)
      modifies this
      ensures bytes == old(bytes) + [opcode]
    {
      bytes := bytes + [opcode];
    }

    method PushData(data: seq<Byte>)
      modifies this
      ensures bytes == old(bytes) + Pushed(data)
    {
      ghost var was := bytes;
      var len := |data|;
      if len == 0 {
        bytes := bytes + [OP_0];
        assert Pushed(data) == [OP_0];
        return;
      }
      if len <= 75 {
        bytes := bytes + [len];
      } else if len <= 0xff {
        bytes := bytes + [OP_PUSHDATA1];
        bytes := WriteLE(bytes, len, 1);
      } else if len <= 0xffff {
        bytes := bytes + [OP_PUSHDATA2];
        bytes := WriteLE(bytes, len, 2);
      } else {
        bytes := bytes + [OP_PUSHDATA4];
        bytes := WriteLE(bytes, len, 4);
      }
      bytes := bytes + data;
      Appended(was, OpcodeFor(len), LE(len, Width(OpcodeFor(len))), data);
    }

    /** Read the operation at a position. */
    method GetOp(start: nat) returns (ok: bool, pc: nat, opcode: Byte, data: seq<Byte>)
      ensures Step(ok, pc, opcode, data) == NextOp(bytes, start)
    {
      ok, pc, opcode, data := false, start, OP_INVALIDOPCODE, [];
      if pc >= |bytes| {
        return;
      }
      var op := bytes[pc];
      pc := pc + 1;
      var len := 0;
      if 0x01 <= op <= 0x4b {
        len := op;
      } else if op == OP_PUSHDATA1 {
        if pc + 1 > |bytes| { return; }
        len := ReadLE(bytes, pc, 1);
        pc := pc + 1;
      } else if op == OP_PUSHDATA2 {
        if pc + 2 > |bytes| { return; }
        len := ReadLE(bytes, pc, 2);
        pc := pc + 2;
      } else if op == OP_PUSHDATA4 {
        if pc + 4 > |bytes| { return; }
        len := ReadLE(bytes, pc, 4);
        pc := pc + 4;
        if len > MAX_SCRIPT_SIZE { return; }
      } else {
        return true, pc, op, [];
      }
      if pc + len > |bytes| { return; }
      ok, pc, opcode, data := true, pc + len, op, bytes[pc..pc + len];
    }

    method IsUnspendable() returns (r: bool)
      ensures r <==> (bytes != [] && bytes[0] == OP_RETURN) || |bytes| > MAX_SCRIPT_SIZE
    {
      r := (bytes != [] && bytes[0] == OP_RETURN) || |bytes| > MAX_SCRIPT_SIZE;
    }

    /** The payment template, for exactly one hash. */
    method IsPayToPubkeyHash() returns (ok: bool, hash: Bytes32)
      ensures ok ==> bytes == PayToPubkeyHash(hash)
      ensures !ok ==> forall h: Bytes32 :: bytes != PayToPubkeyHash(h)
    {
      ok, hash := false, seq(32, _ => 0);
      TemplateAt();
      if |bytes| != 37 { return; }
      if bytes[0] != OP_DUP { return; }
      if bytes[1] != OP_SHA256 { return; }
      if bytes[2] != 0x20 { return; }
      if bytes[35] != OP_EQUALVERIFY { return; }
      if bytes[36] != OP_CHECKSIG { return; }
      ok, hash := true, bytes[3..35];
    }

    /** Tell the kind of script, with the hash or the whole payload it carries. */
    method Solver() returns (kind: TxoutType, solutions: seq<seq<Byte>>)
      ensures (kind, solutions) == Solved(bytes)
    {
      solutions := [];
      TemplateAt();
      var isPayment, hash := IsPayToPubkeyHash();
      if isPayment {
        return PUBKEYHASH, [hash];
      }
      if bytes == [] || bytes[0] != OP_RETURN {
        return NONSTANDARD, [];
      }
      var payload: seq<Byte> := [];
      var pc := 1;
      ghost var all, done := Pushes(bytes, 1), [];
      BeforeNothing(all);
      while pc < |bytes|
        invariant pc <= |bytes| && payload == Joined(done)
        invariant all == Before(done, Pushes(bytes, pc))
        decreases |bytes| - pc
      {
        ghost var at := pc;
        var ok, opcode, chunk;
        ok, pc, opcode, chunk := GetOp(pc);
        if !ok {
          return NONSTANDARD, [];
        }
        var isPush := opcode == OP_0 || 0x01 <= opcode <= 0x4b || opcode == OP_PUSHDATA1 || opcode == OP_PUSHDATA2
          || opcode == OP_PUSHDATA4;
        if !isPush {
          return NONSTANDARD, [];
        }
        BeforeMore(done, Push(opcode, chunk), Pushes(bytes, pc));
        JoinedMore(done, Push(opcode, chunk));
        done := done + [Push(opcode, chunk)];
        payload := payload + chunk;
      }
      assert done + [] == done;
      return NULL_DATA, [payload];
    }
  }

  method CreatePayToPubkeyHash(h: Bytes32) returns (script: Script)
    ensures fresh(script) && script.bytes == PayToPubkeyHash(h)
  {
    script := new Script();
    script.Add(OP_DUP);
    script.Add(OP_SHA256);
    script.PushData(h);
    script.Add(OP_EQUALVERIFY);
    script.Add(OP_CHECKSIG);
    assert Pushed(h) == [0x20] + h;
    Template(h);
  }

  method CreateNullData(data: seq<Byte>) returns (script: Script)
    ensures fresh(script) && script.bytes == [OP_RETURN] + Pushed(data)
  {
    script := new Script();
    script.Add(OP_RETURN);
    script.PushData(data);
  }

  lemma Appended(was: seq<Byte>, op: Byte, len: seq<Byte>, data: seq<Byte>)
    ensures was + [op] + len + data == was + ([op] + len + data)
  {}

  lemma Template(h: Bytes32)
    ensures ((((([] + [OP_DUP]) + [OP_SHA256]) + ([0x20] + h)) + [OP_EQUALVERIFY]) + [OP_CHECKSIG]) == PayToPubkeyHash(h)
  {}

  lemma TemplateAt()
    ensures forall h: Bytes32 {:trigger PayToPubkeyHash(h)} :: FollowsTemplate(PayToPubkeyHash(h), h)
  {}

  predicate FollowsTemplate(s: seq<Byte>, h: Bytes32) {
    && |s| == 37 && s[3..35] == h
    && s[0] == OP_DUP && s[1] == OP_SHA256 && s[2] == 0x20 && s[35] == OP_EQUALVERIFY && s[36] == OP_CHECKSIG
  }

  lemma BeforeNothing(more: Option<seq<Push>>)
    ensures Before([], more) == more
  {
    if more.Some? { assert [] + more.value == more.value; }
  }

  lemma BeforeMore(ps: seq<Push>, p: Push, more: Option<seq<Push>>)
    ensures Before(ps, Before([p], more)) == Before(ps + [p], more)
  {
    if more.Some? { assert ps + ([p] + more.value) == ps + [p] + more.value; }
  }

  lemma {:induction false} JoinedMore(ps: seq<Push>, p: Push)
    ensures Joined(ps + [p]) == Joined(ps) + p.data
  {
    if ps == [] {
      assert ([p])[1..] == [];
    } else {
      assert (ps + [p])[1..] == ps[1..] + [p];
      JoinedMore(ps[1..], p);
    }
  }

  /** The kind of a script, said of its bytes. */
  function Solved(s: seq<Byte>): (TxoutType, seq<seq<Byte>>) {
    if |s| == 37 && s == PayToPubkeyHash(s[3..35]) then (PUBKEYHASH, [s[3..35]])
    else if s != [] && s[0] == OP_RETURN && Pushes(s, 1).Some? then (NULL_DATA, [Joined(Pushes(s, 1).value)])
    else (NONSTANDARD, [])
  }

  /** OP_RETURN followed by any pushes carries their concatenation. */
  lemma NullDataSolved(ps: seq<Push>)
    requires AllFit(ps)
    ensures Solved(NullData(ps)) == (NULL_DATA, [Joined(ps)])
  {
    PushesAreRead([OP_RETURN], ps);
    assert NullData(ps)[0] == OP_RETURN;
  }

  /** Only OP_RETURN followed by complete pushes is a data carrier. */
  lemma SolvedNullData(s: seq<Byte>)
    ensures Solved(s).0 == NULL_DATA <==> exists ps :: AllFit(ps) && s == NullData(ps)
  {
    if Solved(s).0 == NULL_DATA {
      PushesAreThere(s, 1);
      var ps := Pushes(s, 1).value;
      assert s == [s[0]] + s[1..];
      assert AllFit(ps) && s == NullData(ps);
    }
    forall ps | AllFit(ps) && s == NullData(ps)
      ensures Solved(s).0 == NULL_DATA
    {
      NullDataSolved(ps);
    }
  }

  lemma SolvedPayment(s: seq<Byte>)
    ensures Solved(s).0 == PUBKEYHASH <==> exists h: Bytes32 :: s == PayToPubkeyHash(h)
    ensures forall h: Bytes32 :: s == PayToPubkeyHash(h) ==> Solved(s) == (PUBKEYHASH, [h])
  {
    TemplateAt();
    if Solved(s).0 == PUBKEYHASH {
      var h: Bytes32 := s[3..35];
      assert s == PayToPubkeyHash(h);
    }
  }

  /** The data builder makes a data carrier of its payload exactly when the payload can be read back. */
  lemma CreatedNullData(data: seq<Byte>)
    ensures Solved([OP_RETURN] + Pushed(data)) == (NULL_DATA, [data]) <==> |data| <= MAX_PUSH
  {
    var p := Push(OpcodeFor(|data|), data);
    var s := [OP_RETURN] + Pushed(data);
    if |data| <= MAX_PUSH {
      assert [p][1..] == [];
      assert AllEncoded([p]) == Pushed(data) + [] == Pushed(data);
      assert Joined([p]) == data + [] == data;
      NullDataSolved([p]);
    } else {
      LongPushFails(data);
    }
  }

  lemma LongPushFails(data: seq<Byte>)
    requires |data| > MAX_PUSH
    ensures Solved([OP_RETURN] + Pushed(data)) != (NULL_DATA, [data])
  {
    var s := [OP_RETURN] + Pushed(data);
    if Pushes(s, 1).Some? {
      var ps := Pushes(s, 1).value;
      PushesAreThere(s, 1);
      assert s[1..] == Pushed(data) && s[1] == OP_PUSHDATA4;
      var r := NextOp(s, 1);
      assert ps[0] == Push(OP_PUSHDATA4, r.data);
      LongerThanJoined(ps[1..]);
    }
  }

  lemma {:induction false} LongerThanJoined(ps: seq<Push>)
    ensures |AllEncoded(ps)| >= |Joined(ps)| + |ps|
  {
    if ps != [] { LongerThanJoined(ps[1..]); }
  }
}
