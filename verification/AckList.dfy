/** The array behind the list of acknowledgements still to be sent: serial numbers and
    timestamps alternate, and the array doubles when it is full. */
module AckArray {
  import opened Words
  import R = RecvWindow

  // Capacities are 8, 16, 32, ...
  predicate Doubled(block: nat) {
    block == 8 || (block > 8 && block % 2 == 0 && Doubled(block / 2))
  }

  lemma DoubledNext(block: nat)
    requires Doubled(block)
    ensures block >= 8 && Doubled(2 * block)
  {
    assert 2 * block % 2 == 0 && 2 * block / 2 == block;
  }

  function PairAt(words: seq<u32>, i: nat): R.Ack
    requires 2 * i + 1 < |words|
  {
    R.Ack(words[2 * i], words[2 * i + 1])
  }

  function Pairs(words: seq<u32>, n: nat): (s: seq<R.Ack>)
    requires 2 * n <= |words|
    ensures |s| == n
  {
    seq(n, i requires 0 <= i < n => PairAt(words, i))
  }

  lemma PairsAgree(a: seq<u32>, b: seq<u32>, n: nat)
    requires 2 * n <= |a| && 2 * n <= |b| && a[..2 * n] == b[..2 * n]
    ensures Pairs(a, n) == Pairs(b, n)
  {
    forall i | 0 <= i < n ensures PairAt(a, i) == PairAt(b, i) {
      assert a[2 * i] == a[..2 * n][2 * i] && b[2 * i] == b[..2 * n][2 * i];
      assert a[2 * i + 1] == a[..2 * n][2 * i + 1] && b[2 * i + 1] == b[..2 * n][2 * i + 1];
    }
  }

  class AckList {
    var acklist: array?<u32>
    var ackcount: u32
    var ackblock: u32

    ghost predicate Valid()
      reads this
    {
      && (acklist == null ==> ackblock == 0)
      && (acklist != null ==> acklist.Length == 2 * ackblock && Doubled(ackblock))
      && ackcount <= ackblock
    }

    ghost function Contents(): seq<R.Ack>
      requires Valid()
      reads this, acklist
    {
      if acklist == null then [] else Pairs(acklist[..], ackcount)
    }

    constructor ()
      ensures Valid() && Contents() == []
    {
      acklist, ackcount, ackblock := null, 0, 0;
    }

    // The next capacity: 8, 16, 32, ...
    static method Block(newsize: u32) returns (newblock: u32)
      requires newsize <= 0x8000_0000
      ensures Doubled(newblock) && newsize <= newblock
    {
      newblock := 8;
      while newblock < newsize
        invariant Doubled(newblock)
        decreases newsize - newblock
      {
        DoubledNext(newblock);
        newblock := newblock * 2;
      }
    }

    // The reallocation of `ikcp_ack_push`; past 2^31 entries the doubling would wrap.
    method Grow()
      requires Valid() && ackcount == ackblock && ackcount < 0x8000_0000
      modifies this`acklist, this`ackblock
      ensures Valid() && ackcount < ackblock && Contents() == old(Contents())
      ensures fresh(acklist)
    {
      var newblock := Block(ackcount + 1);
      var list := new u32[newblock * 2];
      if acklist != null {
        var x := 0;
        while x < ackcount
          invariant 0 <= x <= ackcount
          invariant list[..2 * x] == acklist[..2 * x]
          modifies list
        {
          list[x * 2] := acklist[x * 2];
          list[x * 2 + 1] := acklist[x * 2 + 1];
          x := x + 1;
        }
        PairsAgree(list[..], acklist[..], ackcount);
      }
      acklist, ackblock := list, newblock;
    }

    // `ikcp_ack_push`.
    method Push(sn: u32, ts: u32)
      requires Valid() && ackcount < 0x8000_0000
      modifies this, acklist
      ensures Valid() && Contents() == old(Contents()) + [R.Ack(sn, ts)]
      ensures acklist == old(acklist) || fresh(acklist)
    {
      if ackcount + 1 > ackblock {
        Grow();
      }
      Append(sn, ts);
    }

    method Append(sn: u32, ts: u32)
      requires Valid() && ackcount < ackblock && acklist != null
      modifies this`ackcount, acklist
      ensures Valid() && Contents() == old(Contents()) + [R.Ack(sn, ts)]
    {
      ghost var before := acklist[..];
      acklist[ackcount * 2] := sn;
      acklist[ackcount * 2 + 1] := ts;
      PairsAgree(before, acklist[..], ackcount);
      ackcount := ackcount + 1;
    }

    // `ikcp_ack_get`.
    method Get(p: nat) returns (sn: u32, ts: u32)
      requires Valid() && p < ackcount
      ensures R.Ack(sn, ts) == Contents()[p]
    {
      sn, ts := acklist[p * 2], acklist[p * 2 + 1];
    }
  }
}
