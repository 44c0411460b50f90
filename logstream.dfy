/**
  Streaming the data file back to a client (`send_file_contents`): the file is
  read from its start in pieces of at most `BUFFER_SIZE` bytes and each piece
  is handed to `send`; the first failed `send` ends the stream.
*/
module LogStream {
  import opened Framing

  /** Size of the read buffer in `send_file_contents` and of one `recv`. */
  const BUFFER_SIZE: nat := 1024

  /** The consecutive pieces that successive `fread` calls return for a file holding `data`. */
  function Pieces(data: seq<byte>): seq<seq<byte>>
    decreases |data|
  {
    if data == [] then []
    else if |data| <= BUFFER_SIZE then [data]
    else [data[..BUFFER_SIZE]] + Pieces(data[BUFFER_SIZE..])
  }

  /** The pieces are non-empty, at most `BUFFER_SIZE` long, full except the last, and cover the file. */
  lemma {:induction false} PiecesCover(data: seq<byte>)
    ensures Flatten(Pieces(data)) == data
    ensures forall k :: 0 <= k < |Pieces(data)| ==> 1 <= |Pieces(data)[k]| <= BUFFER_SIZE
    ensures forall k :: 0 <= k < |Pieces(data)| - 1 ==> |Pieces(data)[k]| == BUFFER_SIZE
    decreases |data|
  {
    if data == [] {
    } else if |data| <= BUFFER_SIZE {
      assert Flatten([data]) == Flatten([]) + data;
    } else {
      var rest := data[BUFFER_SIZE..];
      PiecesCover(rest);
      FlattenCons(data[..BUFFER_SIZE], Pieces(rest));
      assert data == data[..BUFFER_SIZE] + rest;
      var ps := Pieces(data);
      assert forall k :: 1 <= k < |ps| ==> ps[k] == Pieces(rest)[k - 1];
    }
  }

  /** There are as many pieces as `BUFFER_SIZE`-byte blocks needed to hold the file. */
  lemma {:induction false} PiecesCount(data: seq<byte>)
    ensures |Pieces(data)| == (|data| + BUFFER_SIZE - 1) / BUFFER_SIZE
    decreases |data|
  {
    if |data| > BUFFER_SIZE {
      PiecesCount(data[BUFFER_SIZE..]);
    }
  }

  /** Piece `k` is the file's bytes from offset `k * BUFFER_SIZE`, up to the next multiple or the end. */
  lemma {:induction false} PieceAt(data: seq<byte>, k: nat)
    requires k < |Pieces(data)|
    ensures k * BUFFER_SIZE < |data|
    ensures Pieces(data)[k] ==
      data[k * BUFFER_SIZE .. if (k + 1) * BUFFER_SIZE <= |data| then (k + 1) * BUFFER_SIZE else |data|]
    decreases k
  {
    if k > 0 {
      var rest := data[BUFFER_SIZE..];
      assert |data| > BUFFER_SIZE;
      assert Pieces(data)[k] == Pieces(rest)[k - 1];
      PieceAt(rest, k - 1);
      var lo := (k - 1) * BUFFER_SIZE;
      var hi := if k * BUFFER_SIZE <= |rest| then k * BUFFER_SIZE else |rest|;
      assert k * BUFFER_SIZE == lo + BUFFER_SIZE;
      assert (k + 1) * BUFFER_SIZE == k * BUFFER_SIZE + BUFFER_SIZE;
      assert rest[lo..hi] == data[lo + BUFFER_SIZE..hi + BUFFER_SIZE];
    }
  }

  /**
    The index of the first `send` that fails among `n` attempts, or `n` when
    every attempt succeeds.
  */
  function FirstRefused(n: nat, sendOk: nat -> bool): (k: nat)
    ensures k <= n
    ensures forall i :: 0 <= i < k ==> sendOk(i)
    ensures k < n ==> !sendOk(k)
  {
    if n == 0 then 0
    else
      var k := FirstRefused(n - 1, sendOk);
      if k < n - 1 || !sendOk(n - 1) then k else n
  }

  /**
    What one call of `send_file_contents` does: its return code, the pieces
    it handed to `send` (the last one refused when the code is -1), and the
    bytes the client actually received.
  */
  datatype Streamed = Streamed(rc: int, handed: seq<seq<byte>>, delivered: seq<byte>)

  /**
    The outcome of streaming a file holding `data`, given whether `fopen`
    succeeds and which of the successive `send` calls succeed.
  */
  function Stream(data: seq<byte>, openOk: bool, sendOk: nat -> bool): (r: Streamed)
    ensures r.handed <= Pieces(data)
    ensures r.rc == 0 ==> openOk && r.handed == Pieces(data) && r.delivered == Flatten(Pieces(data))
    ensures openOk && r.rc == -1 ==> 0 < |r.handed| && !sendOk(|r.handed| - 1)
  {
    if !openOk then Streamed(-1, [], [])
    else
      var ps := Pieces(data);
      var k := FirstRefused(|ps|, sendOk);
      if k == |ps| then Streamed(0, ps, Flatten(ps)) else Streamed(-1, ps[..k + 1], Flatten(ps[..k]))
  }

  /** Streaming succeeds exactly when the file opens and every piece is sent; then the client has the whole file. */
  lemma StreamSucceeds(data: seq<byte>, openOk: bool, sendOk: nat -> bool)
    ensures Stream(data, openOk, sendOk).rc == 0 || Stream(data, openOk, sendOk).rc == -1
    ensures Stream(data, openOk, sendOk).rc == 0 <==>
      openOk && forall i :: 0 <= i < |Pieces(data)| ==> sendOk(i)
    ensures Stream(data, openOk, sendOk).rc == 0 ==>
      Stream(data, openOk, sendOk).handed == Pieces(data) && Stream(data, openOk, sendOk).delivered == data
  {
    PiecesCover(data);
  }

  /**
    The error paths: a failed `fopen` sends nothing; otherwise the pieces
    handed to `send` are the first pieces of the file, every one but the last
    was sent, and the last was refused, after which nothing more is sent.
  */
  lemma StreamFails(data: seq<byte>, openOk: bool, sendOk: nat -> bool)
    ensures var r := Stream(data, openOk, sendOk);
      !openOk ==> r.rc == -1 && r.handed == [] && r.delivered == []
    ensures var r := Stream(data, openOk, sendOk);
      openOk && r.rc == -1 ==>
        0 < |r.handed| <= |Pieces(data)| && r.handed == Pieces(data)[..|r.handed|] &&
        (forall i :: 0 <= i < |r.handed| - 1 ==> sendOk(i)) && !sendOk(|r.handed| - 1) &&
        r.delivered == Flatten(r.handed[..|r.handed| - 1])
  {
    var ps := Pieces(data);
    var k := FirstRefused(|ps|, sendOk);
    if openOk && k < |ps| {
      assert ps[..k + 1][..k] == ps[..k];
    }
  }

  /** Whatever happens, the client receives a prefix of the file. */
  lemma StreamDeliversPrefix(data: seq<byte>, openOk: bool, sendOk: nat -> bool)
    ensures Stream(data, openOk, sendOk).delivered <= data
  {
    var ps := Pieces(data);
    var k := FirstRefused(|ps|, sendOk);
    PiecesCover(data);
    assert ps == ps[..k] + ps[k..];
    FlattenAppend(ps[..k], ps[k..]);
  }

  /** The code is 0 or -1, the client gets a prefix of the file, and all of it on success. */
  lemma StreamEcho(data: seq<byte>, openOk: bool, sendOk: nat -> bool)
    ensures Stream(data, openOk, sendOk).rc == 0 || Stream(data, openOk, sendOk).rc == -1
    ensures Stream(data, openOk, sendOk).delivered <= data
    ensures Stream(data, openOk, sendOk).rc == 0 ==> Stream(data, openOk, sendOk).delivered == data
  {
    StreamSucceeds(data, openOk, sendOk);
    StreamDeliversPrefix(data, openOk, sendOk);
  }

  /**
    `send_file_contents` over a file holding `data`: `openOk` is the outcome
    of `fopen`, `sendOk(i)` that of the `i`-th `send`.
  */
  method SendFileContents(data: seq<byte>, openOk: bool, sendOk: nat -> bool)
    returns (rc: int, handed: seq<seq<byte>>, delivered: seq<byte>)
    ensures Streamed(rc, handed, delivered) == Stream(data, openOk, sendOk)
  {
    if !openOk {
      return -1, [], [];
    }
    handed, delivered := [], [];
    var pos := 0;
    while pos < |data|
      invariant 0 <= pos <= |data|
      invariant handed + Pieces(data[pos..]) == Pieces(data)
      invariant delivered == Flatten(handed)
      invariant forall i :: 0 <= i < |handed| ==> sendOk(i)
      decreases |data| - pos
    {
      var n := if |data| - pos < BUFFER_SIZE then |data| - pos else BUFFER_SIZE;
      var piece := data[pos..pos + n];
      PiecesNext(data, handed, pos, n);
      if !sendOk(|handed|) {
        FirstRefusedIs(|Pieces(data)|, sendOk, |handed|);
        StreamRefused(data, sendOk, |handed|);
        assert Stream(data, openOk, sendOk) == Streamed(-1, handed + [piece], delivered);
        return -1, handed + [piece], delivered;
      }
      handed, delivered := handed + [piece], delivered + piece;
      pos := pos + n;
    }
    assert data[pos..] == [];
    assert handed == Pieces(data);
    FirstRefusedIs(|handed|, sendOk, |handed|);
    StreamAllSent(data, sendOk);
    rc := 0;
  }

  /** Once the file is open, the outcome when `send` number `k` is the first refused. */
  lemma StreamRefused(data: seq<byte>, sendOk: nat -> bool, k: nat)
    requires k < |Pieces(data)| && FirstRefused(|Pieces(data)|, sendOk) == k
    ensures Stream(data, true, sendOk) == Streamed(-1, Pieces(data)[..k + 1], Flatten(Pieces(data)[..k]))
  {
  }

  /** Once the file is open, the outcome when no `send` is refused. */
  lemma StreamAllSent(data: seq<byte>, sendOk: nat -> bool)
    requires FirstRefused(|Pieces(data)|, sendOk) == |Pieces(data)|
    ensures Stream(data, true, sendOk) == Streamed(0, Pieces(data), Flatten(Pieces(data)))
  {
  }

  /** The piece read at offset `pos` is the next piece of the file after those already handed to `send`. */
  lemma PiecesNext(data: seq<byte>, handed: seq<seq<byte>>, pos: nat, n: nat)
    requires pos < |data|
    requires n == if |data| - pos < BUFFER_SIZE then |data| - pos else BUFFER_SIZE
    requires handed + Pieces(data[pos..]) == Pieces(data)
    ensures |handed| < |Pieces(data)| && Pieces(data)[..|handed|] == handed
    ensures Pieces(data)[..|handed| + 1] == handed + [data[pos..pos + n]]
    ensures (handed + [data[pos..pos + n]]) + Pieces(data[pos + n..]) == Pieces(data)
    ensures Flatten(handed + [data[pos..pos + n]]) == Flatten(handed) + data[pos..pos + n]
  {
    var piece := data[pos..pos + n];
    PiecesFrom(data, pos, n);
    assert handed + [piece] + Pieces(data[pos + n..]) == handed + ([piece] + Pieces(data[pos + n..]));
    assert (handed + [piece])[..|handed|] == handed;
  }

  /** The next `fread` from offset `pos` returns the next `n` bytes, and the rest of the file follows. */
  lemma PiecesFrom(data: seq<byte>, pos: nat, n: nat)
    requires pos < |data|
    requires n == if |data| - pos < BUFFER_SIZE then |data| - pos else BUFFER_SIZE
    ensures Pieces(data[pos..]) == [data[pos..pos + n]] + Pieces(data[pos + n..])
  {
    var rest := data[pos..];
    assert rest[..n] == data[pos..pos + n];
    assert rest[n..] == data[pos + n..];
    if |rest| <= BUFFER_SIZE {
      assert n == |rest| && rest[..n] == rest;
      assert data[pos + n..] == [];
      assert Pieces(rest) == [rest];
    }
  }

  /** An index with every earlier `send` accepted and itself refused (or past the end) is the first refusal. */
  lemma FirstRefusedIs(n: nat, sendOk: nat -> bool, k: nat)
    requires k <= n
    requires forall i :: 0 <= i < k ==> sendOk(i)
    requires k < n ==> !sendOk(k)
    ensures FirstRefused(n, sendOk) == k
  {
  }
}
