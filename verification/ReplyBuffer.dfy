/** send_deferred_reply's construction of the reply body in a buffer of computed size. */
module ReplyBuffer {
  import opened MetaTypes
  import opened Bytes
  import opened Wire

  /** The size of the buffer, computed in 32 bits. */
  function Capacity(opcode: nat, extraLen: nat): nat {
    if opcode == OP_READ then BodyLength(extraLen) else if opcode == OP_STATFS then 20 else 4
  }

  /** The largest body the branches may write. */
  function Needed(opcode: nat, extraLen: nat): nat {
    if opcode == OP_READ then 8 + extraLen else if opcode == OP_STATFS then 20 else 4
  }

  /** The 32-bit size is large enough exactly when the read length leaves room for the header. */
  lemma CapacityFitsIff(opcode: nat, extraLen: nat)
    requires extraLen < U32
    ensures Needed(opcode, extraLen) <= Capacity(opcode, extraLen) <==> (opcode == OP_READ ==> extraLen < U32 - 8)
  {
    if opcode == OP_READ && extraLen >= U32 - 8 {
      assert (8 + extraLen) % U32 == 8 + extraLen - U32;
    }
  }

  /** Copy behind the first at bytes. */
  method Put(dst: array<Byte>, at: nat, src: seq<Byte>)
    requires at + |src| <= dst.Length
    modifies dst
    ensures dst[..at + |src|] == old(dst[..at]) + src
  {
    Copy(dst, at, src);
    assert dst[..at + |src|] == dst[..at] + dst[at..at + |src|];
  }

  /**
   Fill the buffer.  The writes stay inside it exactly when its size did not wrap; then its first
   length bytes are the reply body.  The code does not look, so where safe is false it writes past
   its buffer.
   */
  method Build(opcode: nat, result: nat, extra: Option<seq<Byte>>) returns (safe: bool, body: array<Byte>, length: nat)
    requires result < U32 && (extra.Some? ==> |extra.value| < U32)
    ensures safe <==> (opcode == OP_READ && extra.Some? ==> |extra.value| < U32 - 8)
    ensures fresh(body) && length <= body.Length
    ensures safe ==> body[..length] == ReplyBody(opcode, result, extra)
  {
    hide LE;
    var extraLen := if extra.Some? then |extra.value| else 0;
    CapacityFitsIff(opcode, extraLen);
    body := new Byte[Capacity(opcode, extraLen)];
    length := 0;
    safe := Needed(opcode, extraLen) <= body.Length;
    if !safe {
      return;
    }
    Put(body, 0, LE(4, result));
    assert body[..0] + LE(4, result) == LE(4, result);
    if opcode == OP_READ {
      if result == IO_SUCCESS && extra.Some? && extraLen > 0 {
        Put(body, 4, LE(4, extraLen));
        Put(body, 8, extra.value);
        length := BodyLength(extraLen);
      } else {
        Put(body, 4, LE(4, 0));
        length := 8;
      }
    } else if opcode == OP_STATFS {
      var payload := if extra.Some? && extraLen >= 16 then extra.value[..16] else LE(16, 0);
      Put(body, 4, payload);
      length := 20;
    } else {
      length := 4;
    }
  }
}
