/** `BufferFromSystemMemory`: a growing vector with a write cursor and a movable AEAD window. */
module Buffer {
  import opened Bytes

  // What a buffer means: the bytes written so far, and where the AEAD window starts.
  datatype Plain = Plain(data: bytes, start: nat)

  // The calls the codec makes. `Write` is `get_writable` filled by its caller.
  datatype Op =
    | Write(src: bytes)
    | TakeOwned
    | Peek(len: nat)
    | SetStart(index: nat)
    | Window
    | Patch(src: bytes)
    | Truncate(len: nat)

  // The calls that do not panic.
  predicate Allowed(s: Plain, op: Op) {
    match op
    case Window => s.start <= |s.data|
    case Patch(src) => s.start + |src| <= |s.data|
    case Truncate(len) => s.start + len <= |s.data|
    case _ => true
  }

  function Step(s: Plain, op: Op): Plain {
    match op
    case Write(src) => s.(data := s.data + src)
    case TakeOwned => s.(data := [])
    case SetStart(index) => s.(start := index)
    case Patch(src) =>
      if Allowed(s, op) then s.(data := s.data[..s.start] + src + s.data[s.start + |src|..]) else s
    case Truncate(len) => if Allowed(s, op) then s.(data := s.data[..s.start + len]) else s
    case Peek(_) => s
    case Window => s
  }

  function Output(s: Plain, op: Op): bytes {
    match op
    case TakeOwned => s.data
    case Peek(len) => s.data[..Min(len, |s.data|)]
    case Window => if Allowed(s, op) then s.data[s.start..] else []
    case _ => []
  }

  function RunOps(s: Plain, ops: seq<Op>): Plain {
    if ops == [] then s else Step(RunOps(s, ops[..|ops| - 1]), ops[|ops| - 1])
  }

  // Every call of the sequence is allowed when it is made.
  predicate AllAllowed(s: Plain, ops: seq<Op>) {
    ops == [] || (AllAllowed(s, ops[..|ops| - 1]) && Allowed(RunOps(s, ops[..|ops| - 1]), ops[|ops| - 1]))
  }

  function Outputs(s: Plain, ops: seq<Op>): seq<bytes> {
    if ops == [] then [] else
      Outputs(s, ops[..|ops| - 1]) + [Output(RunOps(s, ops[..|ops| - 1]), ops[|ops| - 1])]
  }

  class SystemBuffer {
    var inner: bytes
    var cursor: nat
    var start: nat

    ghost predicate Valid()
      reads this
    {
      cursor <= |inner|
    }

    ghost function Value(): (s: Plain)
      requires Valid()
      reads this
      ensures |s.data| == cursor
    {
      Plain(inner[..cursor], start)
    }

    constructor ()
      ensures Valid() && Value() == Plain([], 0)
    {
      inner, cursor, start := [], 0, 0;
    }

    // The cursor moves at once; the bytes handed out are zeros or left over from earlier writes.
    method GetWritable(len: nat) returns (at: nat)
      requires Valid()
      modifies this
      ensures Valid() && at == old(cursor) && cursor == at + len && start == old(start)
      ensures inner == old(inner) + Zeros(if cursor > |old(inner)| then cursor - |old(inner)| else 0)
    {
      at := cursor;
      var end := cursor + len;
      if end > |inner| {
        inner := inner + Zeros(end - |inner|);
      }
      cursor := end;
    }

    // Fills the slice that starts at `at`.
    method CopyFromSlice(at: nat, src: bytes)
      requires Valid() && at + |src| <= cursor
      modifies this`inner
      ensures Valid() && inner == old(inner[..at]) + src + old(inner[at + |src|..])
    {
      inner := inner[..at] + src + inner[at + |src|..];
    }

    method Write(src: bytes)
      requires Valid()
      modifies this
      ensures Valid() && Value() == Step(old(Value()), Op.Write(src))
    {
      ghost var data := Value().data;
      var at := GetWritable(|src|);
      CopyFromSlice(at, src);
      assert inner[..cursor] == data + src;
    }

    method GetDataOwned() returns (head: bytes)
      requires Valid()
      modifies this
      ensures Valid() && Value() == Step(old(Value()), TakeOwned)
      ensures head == Output(old(Value()), TakeOwned)
      // the rest of the vector stays, as stale bytes
      ensures inner == old(inner[cursor..])
    {
      head := inner[..cursor];
      inner := inner[cursor..];
      cursor := 0;
    }

    method GetDataByRef(len: nat) returns (data: bytes)
      requires Valid()
      ensures data == Output(Value(), Peek(len))
    {
      data := inner[..Min(len, cursor)];
      assert data == inner[..cursor][..Min(len, cursor)];
    }

    method DangerSetStart(index: nat)
      modifies this`start
      ensures start == index
    {
      start := index;
    }

    method AsRef() returns (window: bytes)
      requires Valid() && Allowed(Value(), Window)
      ensures window == Output(Value(), Window)
    {
      window := inner[..cursor][start..];
    }

    // Writes through `as_mut`, from the start of the window.
    method WriteWindow(src: bytes)
      requires Valid() && Allowed(Value(), Patch(src))
      modifies this`inner
      ensures Valid() && Value() == Step(old(Value()), Patch(src))
    {
      ghost var data := Value().data;
      CopyFromSlice(start, src);
      assert inner[..cursor] == data[..start] + src + data[start + |src|..];
    }

    method ExtendFromSlice(other: bytes)
      requires Valid()
      modifies this
      ensures Valid() && Value() == Step(old(Value()), Op.Write(other))
    {
      Write(other);
    }

    method Truncate(len: nat)
      requires Valid() && Allowed(Value(), Op.Truncate(len))
      modifies this`cursor
      ensures Valid() && Value() == Step(old(Value()), Op.Truncate(len))
    {
      ghost var before := Value().data;
      cursor := len + start;
      assert inner[..cursor] == before[..cursor];
    }

    // Any sequence of allowed calls behaves as on a plain byte sequence: stale bytes never show.
    method Replay(ops: seq<Op>) returns (outs: seq<bytes>)
      requires Valid() && AllAllowed(Value(), ops)
      modifies this
      ensures Valid() && Value() == RunOps(old(Value()), ops)
      ensures outs == Outputs(old(Value()), ops)
    {
      outs := [];
      ghost var s := Value();
      for i := 0 to |ops|
        invariant Valid() && Value() == RunOps(s, ops[..i]) && outs == Outputs(s, ops[..i])
      {
        assert ops[..i + 1][..i] == ops[..i];
        AllowedAt(s, ops, i);
        var out := [];
        match ops[i] {
          case Write(src) => Write(src);
          case TakeOwned => out := GetDataOwned();
          case Peek(len) => out := GetDataByRef(len);
          case SetStart(index) => DangerSetStart(index);
          case Window => out := AsRef();
          case Patch(src) => WriteWindow(src);
          case Truncate(len) => Truncate(len);
        }
        outs := outs + [out];
      }
      assert ops[..|ops|] == ops;
    }
  }

  lemma {:induction false} AllowedAt(s: Plain, ops: seq<Op>, i: nat)
    requires AllAllowed(s, ops) && i < |ops|
    ensures Allowed(RunOps(s, ops[..i]), ops[i])
    decreases |ops|
  {
    if i < |ops| - 1 {
      AllowedAt(s, ops[..|ops| - 1], i);
      assert ops[..|ops| - 1][..i] == ops[..i];
    }
  }
}
