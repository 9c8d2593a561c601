/** The byte ring behind pipes and terminals: two indices into a fixed buffer, one slot of which
    always stays empty. */
module RingBuffer {
  import opened Memory

  datatype Ring = Ring(base: seq<byte>, rd: int, wr: int)

  ghost predicate Valid(r: Ring) {
    0 <= r.rd < |r.base| && 0 <= r.wr < |r.base|
  }

  /** The buffered bytes, oldest first. */
  function Contents(r: Ring): seq<byte>
    requires Valid(r)
  {
    if r.rd <= r.wr then r.base[r.rd..r.wr] else r.base[r.rd..] + r.base[..r.wr]
  }

  /** ring_readable. */
  function Readable(r: Ring): (n: int)
    requires Valid(r)
    ensures n == |Contents(r)|
  {
    if r.rd <= r.wr then r.wr - r.rd else r.wr + (|r.base| - r.rd)
  }

  /** ring_writable; only whether it is zero carries meaning. */
  function Writable(r: Ring): (n: int)
    requires Valid(r)
    ensures n != 0 <==> |Contents(r)| < |r.base| - 1
  {
    if r.wr == |r.base| - 1 && r.rd == 0 then 0
    else if r.rd <= r.wr then r.wr + (|r.base| - r.rd)
    else if r.rd == r.wr + 1 then 0
    else r.rd - r.wr
  }

  function Advance(i: int, cap: int): int { if i == cap - 1 then 0 else i + 1 }

  function Put(r: Ring, c: byte): Ring
    requires Valid(r)
  {
    r.(base := r.base[r.wr := c], wr := Advance(r.wr, |r.base|))
  }

  function Take(r: Ring): Ring
    requires Valid(r)
  {
    r.(rd := Advance(r.rd, |r.base|))
  }

  /** Storing a byte into a ring with room appends it. */
  lemma PutAppends(r: Ring, c: byte)
    requires Valid(r) && |Contents(r)| < |r.base| - 1
    ensures Valid(Put(r, c)) && |Put(r, c).base| == |r.base| && Contents(Put(r, c)) == Contents(r) + [c]
  {
    var p := Put(r, c);
    if r.rd <= r.wr && r.wr == |r.base| - 1 {
      assert p.wr == 0 && p.rd > 0;
      assert Contents(p) == p.base[p.rd..];
    }
  }

  /** Without room a byte must not be stored: the ring would read as empty. */
  lemma PutOverflows(r: Ring, c: byte)
    requires Valid(r) && |Contents(r)| == |r.base| - 1
    ensures Contents(Put(r, c)) == []
  {
  }

  lemma Uncons(s: seq<byte>, a: int, b: int)
    requires 0 <= a < b <= |s|
    ensures s[a..b] == [s[a]] + s[a + 1..b]
  {
  }

  lemma ConsCat(x: byte, s: seq<byte>, t: seq<byte>)
    ensures [x] + s + t == [x] + (s + t)
  {
  }

  /** Taking a byte from a non-empty ring removes the oldest. */
  lemma TakeRemoves(r: Ring)
    requires Valid(r) && Contents(r) != []
    ensures Valid(Take(r)) && Take(r).base == r.base && [r.base[r.rd]] + Contents(Take(r)) == Contents(r)
  {
    if r.rd < r.wr {
      Uncons(r.base, r.rd, r.wr);
    } else if r.rd == |r.base| - 1 {
      TakeLast(r);
    } else {
      TakeWrapped(r);
    }
  }

  lemma TakeLast(r: Ring)
    requires Valid(r) && r.wr < r.rd == |r.base| - 1
    ensures Valid(Take(r)) && [r.base[r.rd]] + Contents(Take(r)) == Contents(r)
  {
    assert r.base[r.rd..] == [r.base[r.rd]];
    assert r.base[0..r.wr] == r.base[..r.wr];
  }

  lemma TakeWrapped(r: Ring)
    requires Valid(r) && r.wr < r.rd < |r.base| - 1
    ensures Valid(Take(r)) && [r.base[r.rd]] + Contents(Take(r)) == Contents(r)
  {
    assert r.base[r.rd..] == [r.base[r.rd]] + r.base[r.rd + 1..];
    ConsCat(r.base[r.rd], r.base[r.rd + 1..], r.base[..r.wr]);
  }

  /** The ring in place. */
  class CharRing {
    const base: array<byte>
    var rd: int
    var wr: int

    ghost predicate Ok()
      reads this
    {
      0 <= rd < base.Length && 0 <= wr < base.Length
    }

    ghost function View(): Ring
      reads this, base
    {
      Ring(base[..], rd, wr)
    }

    /** ring_init. */
    constructor (cap: nat)
      requires cap > 0
      ensures Ok() && fresh(base) && base.Length == cap && Contents(View()) == []
    {
      base := new byte[cap];
      rd, wr := 0, 0;
    }

    /** The tail of ring_getc, once the ring is known to hold a byte. */
    method GetByte() returns (c: byte)
      requires Ok() && Contents(View()) != []
      modifies this`rd
      ensures Ok() && View() == Take(old(View())) && old(Contents(View())) == [c] + Contents(View())
    {
      TakeRemoves(View());
      c := base[rd];
      if rd == base.Length - 1 { rd := 0; } else { rd := rd + 1; }
    }

    /** The tail of ring_putc, once the ring is known to have room. */
    method PutByte(c: byte)
      requires Ok() && |Contents(View())| < base.Length - 1
      modifies this`wr, base
      ensures Ok() && View() == Put(old(View()), c) && Contents(View()) == old(Contents(View())) + [c]
    {
      PutAppends(View(), c);
      base[wr] := c;
      if wr == base.Length - 1 { wr := 0; } else { wr := wr + 1; }
    }
  }
}
