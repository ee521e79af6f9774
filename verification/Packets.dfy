/** How an image is cut into 256-byte packets, for the flash and the PRAM loader. */
module Packets {
  import opened Bytes

  const PACKET: nat := 256

  function PacketCount(n: nat): (r: nat)
    ensures n <= r * PACKET < n + PACKET
  {
    n / PACKET + if n % PACKET != 0 then 1 else 0
  }

  /** How far k packets reach. */
  function Reach(n: nat, k: nat): (r: nat)
    requires k <= PacketCount(n)
    ensures r <= n
  {
    if k == PacketCount(n) then n else k * PACKET
  }

  function PacketSize(n: nat, k: nat): (r: nat)
    requires k < PacketCount(n)
    ensures 0 < r <= PACKET && k * PACKET + r == Reach(n, k + 1)
  {
    if k + 1 == PacketCount(n) then n - k * PACKET else PACKET
  }

  function Packet(fw: seq<byte>, k: nat): (r: seq<byte>)
    requires k < PacketCount(|fw|)
    ensures |r| == PacketSize(|fw|, k)
  {
    fw[k * PACKET..k * PACKET + PacketSize(|fw|, k)]
  }

  function Joined(fw: seq<byte>, k: nat): seq<byte>
    requires k <= PacketCount(|fw|)
  {
    if k == 0 then [] else Joined(fw, k - 1) + Packet(fw, k - 1)
  }

  /** The packets are contiguous, non-empty, never straddle a 256-byte boundary,
      and joined in order they are the image: no gap, no overlap, nothing left. */
  lemma {:induction false} PacketsPartition(fw: seq<byte>, k: nat)
    requires k <= PacketCount(|fw|)
    ensures Joined(fw, k) == fw[..Reach(|fw|, k)]
    ensures k == PacketCount(|fw|) ==> Joined(fw, k) == fw
    ensures forall j :: 0 <= j < k ==>
              0 < |Packet(fw, j)| <= PACKET && j * PACKET + |Packet(fw, j)| == Reach(|fw|, j + 1)
  {
    if k > 0 {
      PacketsPartition(fw, k - 1);
      assert Reach(|fw|, k - 1) == (k - 1) * PACKET;
      assert fw[..Reach(|fw|, k)] == fw[..Reach(|fw|, k - 1)] + Packet(fw, k - 1);
    }
  }

  /** One more chunk that agrees, or disagrees, with the image. */
  lemma ChunkEquality(mem: seq<byte>, fw: seq<byte>, i: nat, j: nat)
    requires i <= j <= |fw| <= |mem|
    ensures mem[..i] == fw[..i] && mem[i..j] == fw[i..j] ==> mem[..j] == fw[..j]
    ensures mem[i..j] != fw[i..j] ==> mem[..|fw|] != fw
  {
    if mem[..i] == fw[..i] && mem[i..j] == fw[i..j] {
      forall k | 0 <= k < j ensures mem[k] == fw[k] {
        if k < i {
          assert mem[..i][k] == fw[..i][k];
        } else {
          assert mem[i..j][k - i] == fw[i..j][k - i];
        }
      }
    }
    if mem[..|fw|] == fw {
      forall k | 0 <= k < j - i ensures mem[i..j][k] == fw[i..j][k] {
        assert mem[..|fw|][i + k] == fw[i + k];
      }
    }
  }

  /** memcpy of part of the image into a command buffer. */
  method CopyIn(buf: array<byte>, at: nat, fw: seq<byte>, from: nat, n: nat)
    requires at + n <= buf.Length && from + n <= |fw|
    modifies buf
    ensures buf[..at] == old(buf[..at]) && buf[..at + n] == old(buf[..at]) + fw[from..from + n]
  {
    ghost var head := buf[..at];
    forall i | 0 <= i < n {
      buf[at + i] := fw[from + i];
    }
    assert buf[..at] == head && buf[at..at + n] == fw[from..from + n];
    assert buf[..at + n] == buf[..at] + buf[at..at + n];
  }
}
