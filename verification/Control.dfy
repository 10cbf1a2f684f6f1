/** The control responder (section 11 of DSP0236 v1.3.0) and the registry of message types it
    reports. */
module Control {
  import opened Basics

  const CMD_SET_ENDPOINT_ID: Byte := 0x01
  const CMD_GET_ENDPOINT_ID: Byte := 0x02
  const CMD_GET_VERSION_SUPPORT: Byte := 0x04
  const CMD_GET_MESSAGE_TYPE_SUPPORT: Byte := 0x05
  const FIRST_TRANSPORT_CMD: Byte := 0xF0

  const CC_SUCCESS: Byte := 0x00
  const CC_INVALID_DATA: Byte := 0x02
  const CC_INVALID_LENGTH: Byte := 0x03
  const CC_UNSUPPORTED_CMD: Byte := 0x05
  const CC_VERSIONS_NOT_SUPPORTED: Byte := 0x80

  const CTRL_HDR_SIZE := 3
  const MAX_TYPES := 10

  /** Versions 1.0, 1.1, 1.2 and 1.3.3, as sent. */
  const PROTOCOL_VERSIONS: seq<Byte> :=
    [0xf1, 0xf0, 0xff, 0x00, 0xf1, 0xf1, 0xff, 0x00, 0xf1, 0xf2, 0xff, 0x00, 0xf1, 0xf3, 0xf3, 0x00]

  // ---------------------------------------------------------------------------------------
  // The responder
  // ---------------------------------------------------------------------------------------

  /** What a command handler comes to: an error code, or the bytes after the header and completion
      code of a success, and the bus EID from then on. */
  datatype Answer = Refuse(cc: Byte) | Grant(data: seq<Byte>, eid: Byte)

  /** mctp_bus_set_eid's test */
  predicate AssignableEid(eid: Byte) {
    8 <= eid && eid != EID_BROADCAST
  }

  function SetEndpointId(eid: Byte, req: seq<Byte>): Answer {
    if |req| != 5 then Refuse(CC_INVALID_LENGTH)
    else if req[3] % 4 > 1 then Refuse(CC_INVALID_DATA)
    else if !AssignableEid(req[4]) then Refuse(CC_INVALID_DATA)
    else Grant([0, req[4], 0], req[4])
  }

  function GetEndpointId(eid: Byte, req: seq<Byte>): Answer {
    if |req| != CTRL_HDR_SIZE then Refuse(CC_INVALID_LENGTH) else Grant([eid, 1, 0], eid)
  }

  function GetVersion(eid: Byte, req: seq<Byte>): Answer {
    if |req| != 4 then Refuse(CC_INVALID_LENGTH)
    else if req[3] != 0 && req[3] != 0xff then Refuse(CC_VERSIONS_NOT_SUPPORTED)
    else Grant([4] + PROTOCOL_VERSIONS, eid)
  }

  function GetTypes(eid: Byte, types: seq<Byte>, req: seq<Byte>): Answer
    requires |types| <= MAX_TYPES
  {
    if |req| != CTRL_HDR_SIZE then Refuse(CC_INVALID_LENGTH) else Grant([|types|] + types, eid)
  }

  function Dispatch(eid: Byte, types: seq<Byte>, req: seq<Byte>): Answer
    requires |req| >= CTRL_HDR_SIZE && |types| <= MAX_TYPES
  {
    var cmd := req[2];
    if cmd == CMD_SET_ENDPOINT_ID then SetEndpointId(eid, req)
    else if cmd == CMD_GET_ENDPOINT_ID then GetEndpointId(eid, req)
    else if cmd == CMD_GET_VERSION_SUPPORT then GetVersion(eid, req)
    else if cmd == CMD_GET_MESSAGE_TYPE_SUPPORT then GetTypes(eid, types, req)
    else Refuse(CC_UNSUPPORTED_CMD)
  }

  /** fill_resp: control type, the instance ID alone, and the command. */
  function ReplyHeader(req: seq<Byte>): seq<Byte>
    requires |req| >= CTRL_HDR_SIZE
  {
    [0, req[1] % 32, req[2]]
  }

  /** A control request: sent by the tag owner, of control type, with the request bit set and the
      datagram bit clear. */
  predicate IsRequest(to: bool, req: seq<Byte>) {
    to && |req| >= CTRL_HDR_SIZE && req[0] == 0 && req[1] / 128 == 1 && req[1] / 64 % 2 == 0
  }

  /** `reply` answers `req`: same instance ID and command, request and datagram bits clear. */
  predicate Answers(req: seq<Byte>, reply: seq<Byte>) {
    && |req| >= CTRL_HDR_SIZE && |reply| >= CTRL_HDR_SIZE + 1
    && reply[0] == 0 && reply[2] == req[2]
    && reply[1] / 128 == 0 && reply[1] / 64 % 2 == 0 && reply[1] % 32 == req[1] % 32
  }

  /** The requests that change the EID. */
  predicate AssignsEid(req: seq<Byte>) {
    |req| == 5 && req[2] == CMD_SET_ENDPOINT_ID && (req[3] % 4 == 0 || req[3] % 4 == 1) && 8 <= req[4] <= 254
  }

  predicate Supported(cmd: Byte) {
    cmd in [CMD_SET_ENDPOINT_ID, CMD_GET_ENDPOINT_ID, CMD_GET_VERSION_SUPPORT, CMD_GET_MESSAGE_TYPE_SUPPORT]
  }

  /** The one length a request may have. */
  function RequestLength(cmd: Byte): nat {
    if cmd == CMD_SET_ENDPOINT_ID then 5 else if cmd == CMD_GET_VERSION_SUPPORT then 4 else 3
  }

  /** The completion code a request deserves. */
  function CompletionCode(req: seq<Byte>): Byte
    requires |req| >= CTRL_HDR_SIZE
  {
    if !Supported(req[2]) then CC_UNSUPPORTED_CMD
    else if |req| != RequestLength(req[2]) then CC_INVALID_LENGTH
    else if req[2] == CMD_SET_ENDPOINT_ID && !AssignsEid(req) then CC_INVALID_DATA
    else if req[2] == CMD_GET_VERSION_SUPPORT && req[3] !in [0, 0xff] then CC_VERSIONS_NOT_SUPPORTED
    else CC_SUCCESS
  }

  /** What a successful reply says: EID assignment accepted, with the EID and no pool; this
      endpoint's EID, simple and static; the four base protocol versions; the registry. */
  predicate Says(eid: Byte, types: seq<Byte>, req: seq<Byte>, data: seq<Byte>) {
    && |req| >= CTRL_HDR_SIZE
    && (req[2] == CMD_SET_ENDPOINT_ID ==> |req| == 5 && data == [0, req[4], 0])
    && (req[2] == CMD_GET_ENDPOINT_ID ==> data == [eid, 1, 0])
    && (req[2] == CMD_GET_VERSION_SUPPORT ==> data == [4] + PROTOCOL_VERSIONS)
    && (req[2] == CMD_GET_MESSAGE_TYPE_SUPPORT ==> |data| == 1 + |types| && data[0] == |types| && data[1..] == types)
  }

  /** Whether the handler takes a message, the response it sends, and the bus EID from then on. */
  datatype Handling = Handling(handled: bool, reply: Option<seq<Byte>>, eid: Byte)

  /** mctp_control_handler. Every request, of whatever length and contents, gets one response with
      the code it deserves, and nothing else gets any. The EID changes only by a Set Endpoint ID
      request that is answered with success. */
  function Handle(eid: Byte, types: seq<Byte>, to: bool, req: seq<Byte>): (h: Handling)
    requires |types| <= MAX_TYPES
    ensures h.reply.Some? <==> IsRequest(to, req)
    ensures h.reply.Some? ==> h.handled && Answers(req, h.reply.value)
    ensures h.eid == if IsRequest(to, req) && AssignsEid(req) then req[4] else eid
    ensures h.reply.Some? ==>
              && h.reply.value[3] == CompletionCode(req)
              && (if CompletionCode(req) == CC_SUCCESS then Says(eid, types, req, h.reply.value[4..])
                  else |h.reply.value| == 4)
    ensures h.reply.Some? ==> |h.reply.value| <= 21
  {
    if !to || |req| < 1 || req[0] != 0 then Handling(false, None, eid)
    else if |req| < CTRL_HDR_SIZE then Handling(true, None, eid)
    else if !(128 <= req[1] < 192) then Handling(true, None, eid)
    else
      match Dispatch(eid, types, req)
      case Refuse(cc) => Handling(true, Some(ReplyHeader(req) + [cc]), eid)
      case Grant(data, eid') => Handling(true, Some(ReplyHeader(req) + [CC_SUCCESS] + data), eid')
  }

  // ---------------------------------------------------------------------------------------
  // The registry
  // ---------------------------------------------------------------------------------------

  predicate NoDuplicates(s: seq<Byte>) {
    forall i, j :: 0 <= i < j < |s| ==> s[i] != s[j]
  }

  /** mctp_control_add_type */
  function Add(s: seq<Byte>, t: Byte): seq<Byte> {
    if t in s || |s| == MAX_TYPES then s else s + [t]
  }

  /** All of `s` but `t`, in order. */
  function Without(s: seq<Byte>, t: Byte): seq<Byte> {
    if s == [] then [] else (if s[0] == t then [] else [s[0]]) + Without(s[1..], t)
  }

  /** mctp_control_remove_type's loop: a match is cut out, and the element that takes its place is
      stepped past. */
  function Sweep(s: seq<Byte>, t: Byte): seq<Byte> {
    if s == [] then []
    else if s[0] != t then [s[0]] + Sweep(s[1..], t)
    else if |s| == 1 then []
    else [s[1]] + Sweep(s[2..], t)
  }

  predicate TwiceInARow(s: seq<Byte>, t: Byte) {
    exists i :: 0 <= i < |s| - 1 && s[i] == t && s[i + 1] == t
  }

  lemma TwiceStep(s: seq<Byte>, t: Byte)
    requires |s| >= 2
    ensures TwiceInARow(s, t) <==> (s[0] == t && s[1] == t) || TwiceInARow(s[1..], t)
  {
    var u := s[1..];
    if TwiceInARow(s, t) && !(s[0] == t && s[1] == t) {
      var i :| 0 <= i < |s| - 1 && s[i] == t && s[i + 1] == t;
      assert u[i - 1] == t && u[i - 1 + 1] == t;
    }
    if TwiceInARow(u, t) {
      var i :| 0 <= i < |u| - 1 && u[i] == t && u[i + 1] == t;
      assert s[i + 1] == t && s[i + 1 + 1] == t;
    }
    if s[0] == t && s[1] == t {
      assert s[0 + 1] == t;
    }
  }

  /** Stepping past the shifted element does no harm if and only if the type never occurs twice in
      a row. */
  lemma {:induction false} SweepRemoves(s: seq<Byte>, t: Byte)
    ensures t in Sweep(s, t) <==> TwiceInARow(s, t)
    ensures !TwiceInARow(s, t) ==> Sweep(s, t) == Without(s, t)
  {
    if |s| >= 2 {
      TwiceStep(s, t);
      if s[0] != t {
        SweepRemoves(s[1..], t);
      } else {
        if |s| >= 3 { TwiceStep(s[1..], t); }
        assert s[1..][1..] == s[2..];
        SweepRemoves(s[2..], t);
      }
    }
  }

  lemma {:induction false} WithoutOmits(s: seq<Byte>, t: Byte, x: Byte)
    ensures x in Without(s, t) <==> x in s && x != t
  {
    if s != [] {
      WithoutOmits(s[1..], t, x);
      assert s == [s[0]] + s[1..];
    }
  }

  lemma {:induction false} WithoutKeepsDistinct(s: seq<Byte>, t: Byte)
    requires NoDuplicates(s)
    ensures NoDuplicates(Without(s, t)) && |Without(s, t)| <= |s|
  {
    if s != [] {
      WithoutKeepsDistinct(s[1..], t);
      WithoutOmits(s[1..], t, s[0]);
      assert s[0] !in s[1..];
    }
  }

  lemma SweepOfDistinct(s: seq<Byte>, t: Byte)
    requires NoDuplicates(s)
    ensures Sweep(s, t) == Without(s, t)
  {
    SweepRemoves(s, t);
  }

  datatype RegistryOp = AddType(t: Byte) | RemoveType(t: Byte)

  function RegistryRun(s: seq<Byte>, ops: seq<RegistryOp>): seq<Byte> {
    if ops == [] then s else
      var r := RegistryRun(s, ops[..|ops| - 1]);
      match ops[|ops| - 1]
      case AddType(t) => Add(r, t)
      case RemoveType(t) => Sweep(r, t)
  }

  /** Over any run, the registry is a set of at most ten types; a removal deletes exactly its type
      and keeps the order of the rest. */
  lemma {:induction false} RegistryIsOrderedSet(s: seq<Byte>, ops: seq<RegistryOp>)
    requires NoDuplicates(s) && |s| <= MAX_TYPES
    ensures NoDuplicates(RegistryRun(s, ops)) && |RegistryRun(s, ops)| <= MAX_TYPES
    ensures forall t :: RegistryRun(s, ops + [RemoveType(t)]) == Without(RegistryRun(s, ops), t)
  {
    if ops != [] {
      RegistryIsOrderedSet(s, ops[..|ops| - 1]);
      var r := RegistryRun(s, ops[..|ops| - 1]);
      if ops[|ops| - 1].RemoveType? {
        SweepOfDistinct(r, ops[|ops| - 1].t);
        WithoutKeepsDistinct(r, ops[|ops| - 1].t);
      }
    }
    forall t: Byte ensures RegistryRun(s, ops + [RemoveType(t)]) == Without(RegistryRun(s, ops), t) {
      assert (ops + [RemoveType(t)])[..|ops|] == ops;
      SweepOfDistinct(RegistryRun(s, ops), t);
    }
  }

  lemma RegistrySnoc(s: seq<Byte>, ops: seq<RegistryOp>, op: RegistryOp)
    ensures RegistryRun(s, ops + [op]) ==
            if op.AddType? then Add(RegistryRun(s, ops), op.t) else Sweep(RegistryRun(s, ops), op.t)
  {
    assert (ops + [op])[..|ops|] == ops;
  }

  /** An add appends a type that is not registered yet, as long as fewer than ten are, and otherwise
      changes nothing. */
  lemma AddAppends(s: seq<Byte>, ops: seq<RegistryOp>, t: Byte)
    requires NoDuplicates(s) && |s| <= 10
    ensures var r := RegistryRun(s, ops);
            RegistryRun(s, ops + [AddType(t)]) == if t !in r && |r| < 10 then r + [t] else r
  {
    RegistrySnoc(s, ops, AddType(t));
    RegistryIsOrderedSet(s, ops);
  }

  /** The types in the registry at the start, and the ones a run adds. */
  function Wanted(s: seq<Byte>, ops: seq<RegistryOp>): set<Byte> {
    (set x | x in s) + (set op | op in ops && op.AddType? :: op.t)
  }

  /** The last operation on `t` is an add. */
  ghost predicate LastAdded(ops: seq<RegistryOp>, t: Byte) {
    exists i :: 0 <= i < |ops| && ops[i] == AddType(t) && forall j :: i < j < |ops| ==> ops[j] != RemoveType(t)
  }

  lemma LastAddedSnoc(ops: seq<RegistryOp>, op: RegistryOp, t: Byte)
    ensures LastAdded(ops + [op], t) <==> op == AddType(t) || (LastAdded(ops, t) && op != RemoveType(t))
  {
    var ops' := ops + [op];
    assert ops'[|ops|] == op && forall i :: 0 <= i < |ops| ==> ops'[i] == ops[i];
    if LastAdded(ops', t) && op != AddType(t) {
      var i :| 0 <= i < |ops'| && ops'[i] == AddType(t) && forall j :: i < j < |ops'| ==> ops'[j] != RemoveType(t);
      assert ops[i] == AddType(t) && forall j :: i < j < |ops| ==> ops[j] == ops'[j];
    }
    if op == AddType(t) { assert ops'[|ops|] == AddType(t); }
    if LastAdded(ops, t) && op != RemoveType(t) {
      var i :| 0 <= i < |ops| && ops[i] == AddType(t) && forall j :: i < j < |ops| ==> ops[j] != RemoveType(t);
      assert ops'[i] == AddType(t);
    }
  }

  /** Distinct elements of a set are no more than the set has. */
  lemma {:induction false} DistinctFit(s: seq<Byte>, all: set<Byte>)
    requires NoDuplicates(s) && forall x :: x in s ==> x in all
    ensures |s| <= |all|
  {
    if s != [] {
      var init, x := s[..|s| - 1], s[|s| - 1];
      assert x in s && forall y :: y in init ==> y in s && y != x;
      DistinctFit(init, all - {x});
    }
  }

  /** Registration over runs: as long as no more than ten types are ever wanted, a type is registered
      if and only if the last operation on it was an add, or there was none and it was registered at
      the start. */
  lemma {:induction false} RegisteredIffLastAdded(s: seq<Byte>, ops: seq<RegistryOp>, t: Byte)
    requires NoDuplicates(s) && |Wanted(s, ops)| <= 10
    ensures t in RegistryRun(s, ops) <==> LastAdded(ops, t) || (t in s && RemoveType(t) !in ops)
    ensures t in RegistryRun(s, ops) ==> t in Wanted(s, ops)
  {
    if ops == [] {
    } else {
      var init, op := ops[..|ops| - 1], ops[|ops| - 1];
      assert ops == init + [op];
      WantedGrows(s, init, op);
      RegisteredIffLastAdded(s, init, t);
      LastAddedSnoc(init, op, t);
      RegistrySnoc(s, init, op);
      DistinctFit(s, Wanted(s, init));
      RegistryIsOrderedSet(s, init);
      if op.RemoveType? {
        SweepOfDistinct(RegistryRun(s, init), op.t);
        WithoutOmits(RegistryRun(s, init), op.t, t);
      } else {
        HasRoom(s, init, op.t);
      }
    }
  }

  lemma WantedGrows(s: seq<Byte>, ops: seq<RegistryOp>, op: RegistryOp)
    ensures Wanted(s, ops + [op]) == Wanted(s, ops) + if op.AddType? then {op.t} else {}
    ensures |Wanted(s, ops)| <= |Wanted(s, ops + [op])|
  {
    var ops' := ops + [op];
    assert forall o :: o in ops' <==> o in ops || o == op;
    assert Wanted(s, ops') == Wanted(s, ops) + if op.AddType? then {op.t} else {};
    SubsetSmaller(Wanted(s, ops), Wanted(s, ops'));
  }

  lemma {:induction false} SubsetSmaller<T>(a: set<T>, b: set<T>)
    requires a <= b
    ensures |a| <= |b|
  {
    assert b == a + (b - a) && a !! (b - a);
  }

  lemma {:induction false} RegistryWanted(s: seq<Byte>, ops: seq<RegistryOp>)
    requires NoDuplicates(s) && |s| <= 10
    ensures forall x :: x in RegistryRun(s, ops) ==> x in Wanted(s, ops)
  {
    if ops != [] {
      var init, op := ops[..|ops| - 1], ops[|ops| - 1];
      assert ops == init + [op];
      RegistryWanted(s, init);
      RegistryIsOrderedSet(s, init);
      RegistrySnoc(s, init, op);
      WantedGrows(s, init, op);
      if op.RemoveType? {
        SweepOfDistinct(RegistryRun(s, init), op.t);
        forall x: Byte | x in RegistryRun(s, ops) ensures x in Wanted(s, ops) {
          WithoutOmits(RegistryRun(s, init), op.t, x);
        }
      }
    }
  }

  /** A wanted type that is not registered finds the registry not full. */
  lemma HasRoom(s: seq<Byte>, ops: seq<RegistryOp>, t: Byte)
    requires NoDuplicates(s) && |s| <= 10 && |Wanted(s, ops + [AddType(t)])| <= 10
    ensures t in RegistryRun(s, ops) || |RegistryRun(s, ops)| < 10
  {
    var r := RegistryRun(s, ops);
    RegistryIsOrderedSet(s, ops);
    RegistryWanted(s, ops);
    WantedGrows(s, ops, AddType(t));
    if t !in r {
      DistinctFit(r + [t], Wanted(s, ops + [AddType(t)]));
    }
  }

  class TypeRegistry {
    const msgTypes: array<Byte>
    var numMsgTypes: nat

    ghost predicate Valid()
      reads this, msgTypes
    {
      msgTypes.Length == MAX_TYPES && numMsgTypes <= MAX_TYPES
    }

    ghost function View(): seq<Byte>
      requires Valid()
      reads this, msgTypes
    {
      msgTypes[..numMsgTypes]
    }

    constructor ()
      ensures Valid() && fresh(msgTypes) && View() == []
    {
      msgTypes := new Byte[MAX_TYPES];
      numMsgTypes := 0;
    }

    /** mctp_control_add_type */
    method AddMsgType(t: Byte) returns (rc: int)
      requires Valid()
      modifies this, msgTypes
      ensures Valid() && View() == Add(old(View()), t)
      ensures View() == if t !in old(View()) && |old(View())| < 10 then old(View()) + [t] else old(View())
      ensures rc == if t !in old(View()) && |old(View())| == 10 then -ENOSPC else 0
    {
      for i := 0 to numMsgTypes
        invariant t !in msgTypes[..i]
      {
        if msgTypes[i] == t {
          return 0;
        }
      }
      if numMsgTypes == MAX_TYPES {
        return -ENOSPC;
      }
      msgTypes[numMsgTypes] := t;
      numMsgTypes := numMsgTypes + 1;
      assert View() == old(View()) + [t];
      rc := 0;
    }

    /** Cuts element `i` out, moving the later ones down; memmove. */
    method CutOut(i: nat)
      requires Valid() && i < numMsgTypes
      modifies this, msgTypes
      ensures Valid() && View() == old(View())[..i] + old(View())[i + 1..]
    {
      forall j | i <= j < numMsgTypes - 1 {
        msgTypes[j] := msgTypes[j + 1];
      }
      numMsgTypes := numMsgTypes - 1;
    }

    /** mctp_control_remove_type */
    method RemoveMsgType(t: Byte)
      requires Valid()
      modifies this, msgTypes
      ensures Valid() && View() == Sweep(old(View()), t)
    {
      var i := 0;
      while i < numMsgTypes
        invariant Valid() && 0 <= i <= numMsgTypes + 1
        invariant i <= numMsgTypes ==> View()[..i] + Sweep(View()[i..], t) == Sweep(old(View()), t)
        invariant i > numMsgTypes ==> View() == Sweep(old(View()), t)
        decreases numMsgTypes + 1 - i, numMsgTypes
      {
        ghost var s := View();
        if msgTypes[i] == t {
          CutOut(i);
        }
        SweepStep(s, t, i);
        i := i + 1;
      }
      if i == numMsgTypes {
        assert View()[..i] + [] == View();
      }
    }
  }

  /** One turn of the removal loop keeps what the loop will come to. */
  lemma SweepStep(s: seq<Byte>, t: Byte, i: nat)
    requires i < |s|
    ensures s[i] != t ==> s[..i] + Sweep(s[i..], t) == s[..i + 1] + Sweep(s[i + 1..], t)
    ensures var u := s[..i] + s[i + 1..];
            s[i] == t ==>
              if i + 1 <= |u| then s[..i] + Sweep(s[i..], t) == u[..i + 1] + Sweep(u[i + 1..], t)
              else s[..i] + Sweep(s[i..], t) == u
  {
    var u := s[..i] + s[i + 1..];
    if s[i] != t {
      assert s[i..][1..] == s[i + 1..];
      assert s[..i + 1] == s[..i] + [s[i]];
    } else if i + 1 <= |u| {
      assert s[i..][2..] == s[i + 2..] == u[i + 1..];
      assert u[..i + 1] == s[..i] + [s[i + 1]];
    }
  }
}
