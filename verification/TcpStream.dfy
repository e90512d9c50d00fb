/** A byte stream numbered from base, and segments that carry a stretch of it. */
module TcpStream {
  import opened Basics

  const MSS := 1460

  /** The bytes at seqno are those of the stream whose first byte has number base. */
  ghost predicate Carries(stream: seq<byte>, base: nat, seqno: nat, data: seq<byte>) {
    && base <= seqno && seqno + |data| <= base + |stream|
    && data == stream[seqno - base .. seqno - base + |data|]
  }

  /** What is left of a segment when its first n bytes are taken. */
  lemma CarriesTail(stream: seq<byte>, base: nat, seqno: nat, data: seq<byte>, n: nat)
    requires Carries(stream, base, seqno, data) && n <= |data|
    ensures Carries(stream, base, seqno + n, data[n..])
  {
    assert data[n..] == stream[seqno - base + n .. seqno - base + |data|];
  }

  lemma CarriesMore(stream: seq<byte>, more: seq<byte>, base: nat, seqno: nat, data: seq<byte>)
    requires Carries(stream, base, seqno, data)
    ensures Carries(stream + more, base, seqno, data)
  {
    assert (stream + more)[seqno - base .. seqno - base + |data|] == stream[seqno - base .. seqno - base + |data|];
  }
}
