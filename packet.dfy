/**
  The growable packet buffer of `handle_client_data`: a heap block of
  `capacity` bytes holding `len` bytes of the frame being assembled, doubled
  with `realloc` whenever fewer than two free bytes would remain.
*/
module PacketBuffer {
  import opened Framing
  import LogStream

  /** The buffer's size after `malloc`, the same constant as the read buffer. */
  const INITIAL_CAPACITY: nat := LogStream.BUFFER_SIZE

  /** A capacity the buffer can have: the initial one doubled some number of times. */
  predicate IsCapacity(n: nat)
    decreases n
  {
    n == INITIAL_CAPACITY || (n > INITIAL_CAPACITY && n % 2 == 0 && IsCapacity(n / 2))
  }

  /** The capacity before storing one more byte into a buffer holding `len` of `capacity` bytes. */
  function Grown(len: nat, capacity: nat): nat
  {
    if len >= capacity - 1 then 2 * capacity else capacity
  }

  /**
    Growing keeps the capacity a doubling of the initial one, never shrinks
    it, and leaves room for the stored byte and the NUL written after it.
  */
  lemma GrownRoom(len: nat, capacity: nat)
    requires IsCapacity(capacity) && len < capacity
    ensures IsCapacity(Grown(len, capacity))
    ensures capacity <= Grown(len, capacity) <= 2 * capacity
    ensures len + 1 < Grown(len, capacity)
    ensures Grown(len, capacity) != capacity <==> len == capacity - 1
  {
  }

  /** Capacities are the initial one doubled: one below another is at most half of it. */
  lemma {:induction false} CapacityBelow(c: nat, m: nat)
    requires IsCapacity(c) && IsCapacity(m) && c < m
    ensures 2 * c <= m
    decreases m
  {
    if c > m / 2 {
      assert m > INITIAL_CAPACITY && IsCapacity(m / 2);
      CapacityBelow(m / 2, c);
    }
  }

  class Packet {
    var buf: array<byte>
    var len: nat
    var capacity: nat

    /** The heap block is as large as `capacity` says, with room for the NUL after the stored bytes. */
    ghost predicate Valid()
      reads this
    {
      buf.Length == capacity && len < capacity && IsCapacity(capacity)
    }

    /** The bytes of the frame assembled so far. */
    function Contents(): seq<byte>
      reads this, buf
      requires Valid()
    {
      buf[..len]
    }

    /** `malloc(BUFFER_SIZE)` with `packet_len = 0`. */
    constructor ()
      ensures Valid() && fresh(buf)
      ensures len == 0 && capacity == INITIAL_CAPACITY && Contents() == []
    {
      buf := new byte[INITIAL_CAPACITY];
      len := 0;
      capacity := INITIAL_CAPACITY;
    }

    /**
      Appends byte `b`, first doubling the block when `len >= capacity - 1`;
      `reallocOk(n)` is whether `realloc` to `n` bytes succeeds. When it does
      not, the byte is not stored and the capacity field already holds the
      doubled size, as `packet_capacity` does in `handle_client_data`.
    */
    method Store(b: byte, reallocOk: nat -> bool) returns (ok: bool)
      requires Valid()
      modifies this, buf
      ensures ok <==> Grown(old(len), old(capacity)) == old(capacity) || reallocOk(Grown(old(len), old(capacity)))
      ensures capacity == Grown(old(len), old(capacity))
      ensures ok ==> Valid() && Contents() == old(Contents()) + [b]
      ensures ok ==> buf == old(buf) || fresh(buf)
      ensures !ok ==> buf == old(buf) && len == old(len) && buf[..] == old(buf[..])
    {
      if len >= capacity - 1 {
        capacity := capacity * 2;
        if !reallocOk(capacity) {
          return false;
        }
        var grown := new byte[capacity];
        var i := 0;
        assert buf.Length < grown.Length;
        while i < buf.Length
          invariant 0 <= i <= buf.Length < grown.Length
          invariant grown[..i] == buf[..i]
          invariant buf == old(buf) && buf[..] == old(buf[..])
          invariant len == old(len) && capacity == 2 * old(capacity)
          decreases buf.Length - i
        {
          grown[i] := buf[i];
          i := i + 1;
        }
        assert grown[..len] == grown[..buf.Length][..len];
        buf := grown;
      }
      buf[len] := b;
      len := len + 1;
      ok := true;
    }

    /** `packet[packet_len] = '\0'`: in bounds because `len < capacity`. */
    method Terminate()
      requires Valid()
      modifies buf
      ensures Valid() && Contents() == old(Contents()) && buf[len] == NUL
    {
      buf[len] := NUL;
    }

    /**
      The bytes `fputs` writes from the buffer: it scans from the start up to
      the first NUL, which the terminator at `buf[len]` bounds.
    */
    method Fputs() returns (written: seq<byte>)
      requires Valid() && buf[len] == NUL
      ensures written == CString(Contents())
    {
      written := [];
      var i := 0;
      while buf[i] != NUL
        invariant 0 <= i <= len
        invariant written == buf[..i]
        invariant NUL !in buf[..i]
        decreases len - i
      {
        written := written + [buf[i]];
        i := i + 1;
      }
      assert buf[..len][..i] == buf[..i];
      CStringAt(buf[..len], i);
    }

    /** `packet_len = 0`: the capacity is kept. */
    method Reset()
      requires Valid()
      modifies this`len
      ensures Valid() && len == 0 && Contents() == []
    {
      len := 0;
    }
  }
}
