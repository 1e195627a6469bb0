/** The network buffer: a byte vector with a reader and a writer index, and the byte sequence it stands for. */
module Buffers {
  import opened Options

  const CHEAP_PREPEND: nat := 8
  const INITIAL_SIZE: nat := 1024
  const EXTRA_BUFFER: nat := 65536

  // ---------------------------------------------------------------- the specification

  /** Vector size, reader index, and the readable bytes. */
  datatype View = View(size: nat, reader: nat, content: string) {
    function Writer(): nat { reader + |content| }

    predicate Valid() { Writer() <= size && CHEAP_PREPEND <= size }

    function Writable(): nat
      requires Valid()
    {
      size - Writer()
    }

    /** Makes room for `len` bytes: grows the vector, or moves the content down to the cheap prefix. */
    function MakeSpace(len: nat): (v: View)
      requires Valid() && Writable() < len
      ensures v.Valid() && v.content == content && v.Writable() >= len
      ensures Writable() + reader >= len + CHEAP_PREPEND ==> CHEAP_PREPEND < reader
    {
      if Writable() + reader < len + CHEAP_PREPEND then this.(size := Writer() + len)
      else this.(reader := CHEAP_PREPEND)
    }

    function EnsureWritable(len: nat): (v: View)
      requires Valid()
      ensures v.Valid() && v.content == content && v.Writable() >= len
    {
      if Writable() < len then MakeSpace(len) else this
    }

    function Append(data: string): (v: View)
      requires Valid()
      ensures v.Valid() && v.content == content + data
    {
      var w := EnsureWritable(|data|);
      w.(content := w.content + data)
    }

    /** Retrieving everything resets both indices. */
    function Retrieve(len: nat): (v: View)
      requires Valid() && len <= |content|
      ensures v.Valid() && v.content == content[len..]
    {
      if len < |content| then View(size, reader + len, content[len..]) else View(size, CHEAP_PREPEND, "")
    }

    function Unwrite(len: nat): (v: View)
      requires Valid() && len <= |content|
      ensures v.Valid() && v.content == content[..|content| - len]
    {
      this.(content := content[..|content| - len])
    }

    function Prepend(data: string): (v: View)
      requires Valid() && |data| <= reader
      ensures v.Valid() && v.content == data + content
    {
      View(size, reader - |data|, data + content)
    }

    /** Received bytes fill the vector first; what does not fit is appended from the overflow area. */
    function Receive(data: string): (v: View)
      requires Valid()
      ensures v.Valid() && v.content == content + data
    {
      var w := Writable();
      if |data| <= w then this.(content := content + data)
      else
        assert content + data[..w] + data[w..] == content + data;
        this.(content := content + data[..w]).Append(data[w..])
    }
  }

  predicate IsCrlf(s: string, i: nat)
    requires i + 1 < |s|
  {
    s[i] == '\r' && s[i + 1] == '\n'
  }

  /** The first CRLF, if any. */
  function FindCrlf(s: string): (r: Option<nat>)
    ensures r.Some? ==> r.value + 1 < |s| && IsCrlf(s, r.value)
    ensures r.Some? ==> forall i :: 0 <= i < r.value ==> !IsCrlf(s, i)
    ensures r.None? ==> forall i :: 0 <= i && i + 1 < |s| ==> !IsCrlf(s, i)
  {
    if |s| < 2 then None
    else if IsCrlf(s, 0) then Some(0)
    else
      var t := FindCrlf(s[1..]);
      assert forall i :: 1 <= i && i + 1 < |s| ==> IsCrlf(s, i) == IsCrlf(s[1..], i - 1);
      if t.None? then None else Some(t.value + 1)
  }

  /** There is only one first CRLF. */
  lemma FirstCrlf(s: string, r: Option<nat>)
    requires r.Some? ==> r.value + 1 < |s| && IsCrlf(s, r.value) && forall i :: 0 <= i < r.value ==> !IsCrlf(s, i)
    requires r.None? ==> forall i :: 0 <= i && i + 1 < |s| ==> !IsCrlf(s, i)
    ensures r == FindCrlf(s)
  {
    var t := FindCrlf(s);
    if r.Some? && t.Some? {
      assert !(r.value < t.value) && !(t.value < r.value);
    }
  }

  // ---------------------------------------------------------------- runs

  datatype Op = Append(data: string) | Prepend(data: string) | Retrieve(n: nat) | Unwrite(n: nat)
              | EnsureWritable(n: nat) | Receive(data: string)

  /** The asserts the operation makes on entry. */
  predicate Allowed(v: View, op: Op) {
    v.Valid() && match op
      case Prepend(data) => |data| <= v.reader
      case Retrieve(n) => n <= |v.content|
      case Unwrite(n) => n <= |v.content|
      case _ => true
  }

  function Step(v: View, op: Op): View
    requires Allowed(v, op)
  {
    match op
    case Append(data) => v.Append(data)
    case Prepend(data) => v.Prepend(data)
    case Retrieve(n) => v.Retrieve(n)
    case Unwrite(n) => v.Unwrite(n)
    case EnsureWritable(n) => v.EnsureWritable(n)
    case Receive(data) => v.Receive(data)
  }

  /** What the operation means on a plain sequence of bytes. */
  function OnBytes(s: string, op: Op): string
    requires op.Retrieve? || op.Unwrite? ==> op.n <= |s|
  {
    match op
    case Append(data) => s + data
    case Prepend(data) => data + s
    case Retrieve(n) => s[n..]
    case Unwrite(n) => s[..|s| - n]
    case EnsureWritable(_) => s
    case Receive(data) => s + data
  }

  predicate AllAllowed(v: View, ops: seq<Op>)
    decreases |ops|
  {
    ops == [] || (Allowed(v, ops[0]) && AllAllowed(Step(v, ops[0]), ops[1..]))
  }

  function Run(v: View, ops: seq<Op>): View
    requires AllAllowed(v, ops)
    decreases |ops|
  {
    if ops == [] then v else Run(Step(v, ops[0]), ops[1..])
  }

  predicate BytesAllowed(s: string, ops: seq<Op>)
    decreases |ops|
  {
    ops == [] || ((ops[0].Retrieve? || ops[0].Unwrite? ==> ops[0].n <= |s|) && BytesAllowed(OnBytes(s, ops[0]), ops[1..]))
  }

  function RunOnBytes(s: string, ops: seq<Op>): string
    requires BytesAllowed(s, ops)
    decreases |ops|
  {
    if ops == [] then s else RunOnBytes(OnBytes(s, ops[0]), ops[1..])
  }

  /** Over every run the indices stay in order and the readable bytes are those of a plain byte sequence. Only
      `prepend` can be refused where the plain sequence would allow it: its room is what the reader left behind. */
  lemma {:induction false} RefinesBytes(v: View, ops: seq<Op>)
    requires v.Valid() && AllAllowed(v, ops)
    ensures Run(v, ops).Valid()
    ensures BytesAllowed(v.content, ops) && Run(v, ops).content == RunOnBytes(v.content, ops)
    decreases |ops|
  {
    if ops != [] {
      assert Step(v, ops[0]).content == OnBytes(v.content, ops[0]);
      RefinesBytes(Step(v, ops[0]), ops[1..]);
    }
  }

  /** How many bytes a run prepends. */
  function Prepended(ops: seq<Op>): nat {
    if ops == [] then 0 else (if ops[0].Prepend? then |ops[0].data| else 0) + Prepended(ops[1..])
  }

  function Min(a: nat, b: nat): nat { if a < b then a else b }

  /** What the cheap prefix is for: a run that prepends no more than it holds is never refused, and what was not used
      of it is still there afterwards. Without a prepend the plain sequence's own bounds are all that is asked. */
  lemma {:induction false} NeverRefused(v: View, ops: seq<Op>)
    requires v.Valid() && BytesAllowed(v.content, ops) && Prepended(ops) <= Min(v.reader, CHEAP_PREPEND)
    ensures AllAllowed(v, ops)
    ensures Run(v, ops).reader + Prepended(ops) >= Min(v.reader, CHEAP_PREPEND)
    decreases |ops|
  {
    if ops != [] {
      assert Step(v, ops[0]).content == OnBytes(v.content, ops[0]);
      RoomKept(v, ops[0]);
      NeverRefused(Step(v, ops[0]), ops[1..]);
    }
  }

  lemma RoomKept(v: View, op: Op)
    requires Allowed(v, op)
    ensures Step(v, op).reader + Prepended([op]) >= Min(v.reader, CHEAP_PREPEND)
  {
    assert [op][1..] == [];
  }

  /** How many bytes the operation wants to be able to hold. */
  function Demand(s: string, op: Op): nat {
    match op
    case Append(data) => |s| + |data|
    case Receive(data) => |s| + |data|
    case EnsureWritable(n) => |s| + n
    case _ => |s|
  }

  predicate AllFit(size: int, s: string, ops: seq<Op>)
    requires BytesAllowed(s, ops)
    decreases |ops|
  {
    ops == [] || (Demand(s, ops[0]) <= size && AllFit(size, OnBytes(s, ops[0]), ops[1..]))
  }

  /** What was read makes room again: as long as what is to be held fits behind a prefix of 8 bytes, the vector keeps its
      size, however much goes through it. It never shrinks. */
  lemma {:induction false} NeverGrows(v: View, ops: seq<Op>)
    requires v.Valid() && AllAllowed(v, ops)
    ensures BytesAllowed(v.content, ops)
    ensures AllFit(v.size - 8, v.content, ops) ==> Run(v, ops).size == v.size
    ensures Run(v, ops).size >= v.size
    decreases |ops|
  {
    RefinesBytes(v, ops);
    if ops != [] {
      assert Step(v, ops[0]).content == OnBytes(v.content, ops[0]);
      GrowsExactly(v, ops[0]);
      NeverGrows(Step(v, ops[0]), ops[1..]);
    }
  }

  /** The vector grows exactly when what is to be held fits neither behind the reader index nor behind the prefix; the
      bytes before the reader index are kept then. Nothing but reading everything, or moving down, gives them up. */
  lemma GrowsExactly(v: View, op: Op)
    requires Allowed(v, op)
    ensures var s := Step(v, op); var d := Demand(v.content, op);
            && s.size == (if v.reader + d > v.size && 8 + d > v.size then v.reader + d else v.size)
            && (op.Append? || op.EnsureWritable? || op.Receive? ==>
                  s.reader == if v.reader + d > v.size && 8 + d <= v.size then 8 else v.reader)
            && (op.Retrieve? ==> s.reader == if op.n == |v.content| then 8 else v.reader + op.n)
            && (op.Unwrite? ==> s.reader == v.reader)
            && (op.Prepend? ==> s.reader == v.reader - |op.data|)
  {
  }

  // ---------------------------------------------------------------- the class

  function Overwritten(b: string, data: string, at: nat): string
    requires at + |data| <= |b|
  {
    b[..at] + data + b[at + |data|..]
  }

  lemma WrittenAfter(b: string, data: string, reader: nat, writer: nat)
    requires reader <= writer && writer + |data| <= |b|
    ensures Overwritten(b, data, writer)[reader..writer + |data|] == b[reader..writer] + data
  {
  }

  lemma WrittenBefore(b: string, data: string, reader: nat, writer: nat)
    requires |data| <= reader <= writer <= |b|
    ensures Overwritten(b, data, reader - |data|)[reader - |data|..writer] == data + b[reader..writer]
  {
  }

  lemma SameSlice(a: string, b: string, i: nat, j: nat, n: nat)
    requires i + n <= |a| && j + n <= |b| && forall k :: j <= k < j + n ==> b[k] == a[k - j + i]
    ensures b[j..j + n] == a[i..i + n]
  {
  }

  /** What `readv` can do with the two areas it is offered. */
  datatype Received = Failed | Got(data: string)

  class Buffer {
    var buffer: array<char>
    var readerIndex: nat
    var writerIndex: nat

    ghost predicate Valid()
      reads this
    {
      readerIndex <= writerIndex <= buffer.Length && CHEAP_PREPEND <= buffer.Length
    }

    ghost function Abs(): (v: View)
      requires Valid()
      reads this, buffer
      ensures v.Valid()
    {
      View(buffer.Length, readerIndex, buffer[..][readerIndex..writerIndex])
    }

    ghost function Content(): string
      requires Valid()
      reads this, buffer
    {
      Abs().content
    }

    constructor (initialSize: nat := INITIAL_SIZE)
      ensures Valid() && fresh(buffer)
      ensures Abs() == View(CHEAP_PREPEND + initialSize, CHEAP_PREPEND, "")
    {
      buffer := new char[CHEAP_PREPEND + initialSize](_ => '\0');
      readerIndex := CHEAP_PREPEND;
      writerIndex := CHEAP_PREPEND;
    }

    function ReadableBytes(): nat
      requires Valid()
      reads this
    {
      writerIndex - readerIndex
    }

    function WritableBytes(): nat
      requires Valid()
      reads this
    {
      buffer.Length - writerIndex
    }

    /** `std::search` from the reader index; the result counts from there. */
    method FindCRLF() returns (r: Option<nat>)
      requires Valid()
      ensures r == FindCrlf(Content())
    {
      hide FindCrlf;
      ghost var s := Content();
      var i := 0;
      while readerIndex + i + 1 < writerIndex
        invariant forall j :: 0 <= j < i && j + 1 < |s| ==> !IsCrlf(s, j)
      {
        if buffer[readerIndex + i] == '\r' && buffer[readerIndex + i + 1] == '\n' {
          assert IsCrlf(s, i);
          FirstCrlf(s, Some(i));
          return Some(i);
        }
        assert !IsCrlf(s, i);
        i := i + 1;
      }
      FirstCrlf(s, None);
      return None;
    }

    method Retrieve(len: nat)
      requires Valid() && len <= ReadableBytes()
      modifies this`readerIndex, this`writerIndex
      ensures Valid() && Abs() == old(Abs()).Retrieve(len)
    {
      if len < ReadableBytes() {
        readerIndex := readerIndex + len;
      } else {
        RetrieveAll();
      }
    }

    method RetrieveAll()
      requires Valid()
      modifies this`readerIndex, this`writerIndex
      ensures Valid() && Abs() == View(buffer.Length, CHEAP_PREPEND, "")
    {
      readerIndex := CHEAP_PREPEND;
      writerIndex := CHEAP_PREPEND;
    }

    /** The first bytes from `peek()` on. */
    method Peek(len: nat) returns (result: string)
      requires Valid() && len <= ReadableBytes()
      ensures result == Content()[..len]
    {
      result := buffer[..][readerIndex..readerIndex + len];
    }

    method RetrieveAsString(len: nat) returns (result: string)
      requires Valid() && len <= ReadableBytes()
      modifies this`readerIndex, this`writerIndex
      ensures Valid() && Abs() == old(Abs()).Retrieve(len)
      ensures result == old(Content())[..len]
    {
      result := buffer[..][readerIndex..readerIndex + len];
      Retrieve(len);
    }

    /** `std::copy` into the vector. */
    method CopyIn(data: string, at: nat)
      requires at + |data| <= buffer.Length
      modifies buffer
      ensures buffer[..] == Overwritten(old(buffer[..]), data, at)
    {
      for i := 0 to |data|
        invariant forall k :: 0 <= k < buffer.Length ==>
                    buffer[k] == if at <= k < at + i then data[k - at] else old(buffer[k])
      {
        buffer[at + i] := data[i];
      }
    }

    method Append(data: string)
      requires Valid()
      modifies this, buffer
      ensures Valid() && (buffer == old(buffer) || fresh(buffer))
      ensures Abs() == old(Abs()).Append(data)
    {
      EnsureWritableBytes(|data|);
      ghost var before := buffer[..];
      CopyIn(data, writerIndex);
      WrittenAfter(before, data, readerIndex, writerIndex);
      writerIndex := writerIndex + |data|;
    }

    method EnsureWritableBytes(len: nat)
      requires Valid()
      modifies this, buffer
      ensures Valid() && (buffer == old(buffer) || fresh(buffer))
      ensures Abs() == old(Abs()).EnsureWritable(len) && WritableBytes() >= len
    {
      if WritableBytes() < len {
        MakeSpace(len);
      }
    }

    method MakeSpace(len: nat)
      requires Valid() && WritableBytes() < len
      modifies this, buffer
      ensures Valid() && (buffer == old(buffer) || fresh(buffer))
      ensures Abs() == old(Abs()).MakeSpace(len)
    {
      if WritableBytes() + readerIndex < len + CHEAP_PREPEND {
        Resize(writerIndex + len);
      } else {
        assert CHEAP_PREPEND < readerIndex;
        MoveDown();
      }
    }

    /** `vector::resize` to a larger size. */
    method Resize(size: nat)
      requires Valid() && buffer.Length <= size
      modifies this`buffer
      ensures Valid() && fresh(buffer) && readerIndex == old(readerIndex) && writerIndex == old(writerIndex)
      ensures Abs() == old(Abs()).(size := size)
    {
      ghost var before := buffer[..];
      var bigger := new char[size](_ => '\0');
      for i := 0 to buffer.Length
        modifies bigger
        invariant forall k :: 0 <= k < i ==> bigger[k] == before[k]
      {
        bigger[i] := buffer[i];
      }
      SameSlice(before, bigger[..], readerIndex, readerIndex, ReadableBytes());
      buffer := bigger;
    }

    /** Moves the content down to the cheap prefix, upward over overlapping ranges. */
    method MoveDown()
      requires Valid() && CHEAP_PREPEND < readerIndex
      modifies this`readerIndex, this`writerIndex, buffer
      ensures Valid() && Abs() == old(Abs()).(reader := CHEAP_PREPEND)
    {
      ghost var before := buffer[..];
      var readable := ReadableBytes();
      for i := 0 to readable
        modifies buffer
        invariant buffer[CHEAP_PREPEND..CHEAP_PREPEND + i] == before[readerIndex..readerIndex + i]
        invariant forall k :: CHEAP_PREPEND + i <= k < writerIndex ==> buffer[k] == before[k]
      {
        buffer[CHEAP_PREPEND + i] := buffer[readerIndex + i];
        assert before[readerIndex..readerIndex + i + 1] == before[readerIndex..readerIndex + i] + [before[readerIndex + i]];
      }
      readerIndex := CHEAP_PREPEND;
      writerIndex := readerIndex + readable;
    }

    method Unwrite(len: nat)
      requires Valid() && len <= ReadableBytes()
      modifies this`writerIndex
      ensures Valid() && Abs() == old(Abs()).Unwrite(len)
    {
      writerIndex := writerIndex - len;
    }

    method Prepend(data: string)
      requires Valid() && |data| <= readerIndex
      modifies this`readerIndex, buffer
      ensures Valid() && Abs() == old(Abs()).Prepend(data)
    {
      ghost var before := buffer[..];
      WrittenBefore(before, data, readerIndex, writerIndex);
      readerIndex := readerIndex - |data|;
      CopyIn(data, readerIndex);
    }

    /** How many bytes the two areas offered to `readv` can take. */
    function ReadLimit(): nat
      requires Valid()
      reads this
    {
      WritableBytes() + if WritableBytes() < EXTRA_BUFFER then EXTRA_BUFFER else 0
    }

    /** `readFd`: the kernel scatters what it delivers over the writable area and the overflow area. */
    method ReadFd(r: Received) returns (n: int)
      requires Valid() && (r.Got? ==> |r.data| <= ReadLimit())
      modifies this, buffer
      ensures Valid() && (buffer == old(buffer) || fresh(buffer))
      ensures r.Failed? ==> n == -1 && Abs() == old(Abs())
      ensures r.Got? ==> n == |r.data| && Abs() == old(Abs()).Receive(r.data)
    {
      if r.Failed? {
        return -1;
      }
      n := |r.data|;
      var writable := WritableBytes();
      if n <= writable {
        Scatter(r.data);
      } else {
        Scatter(r.data[..writable]);
        Append(r.data[writable..]);
      }
    }

    /** What the kernel puts into the writable area. */
    method Scatter(data: string)
      requires Valid() && |data| <= WritableBytes()
      modifies this`writerIndex, buffer
      ensures Valid() && Abs() == old(Abs()).(content := old(Content()) + data)
    {
      ghost var before := buffer[..];
      CopyIn(data, writerIndex);
      WrittenAfter(before, data, readerIndex, writerIndex);
      writerIndex := writerIndex + |data|;
    }
  }
}
