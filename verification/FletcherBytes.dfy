/** The checksum of bytes: little-endian words, written by their own encoding, and their weights in numbers. */
module FletcherBytes {
  import opened Bytes
  import opened Fletcher4

  /** The four bytes of a word, lowest first. */
  function WordBytes(w: nat): (s: seq<byte>)
    requires w < 0x1_0000_0000
    ensures |s| == 4
  {
    [w % 256, w / 256 % 256, w / 65536 % 256, w / 16777216]
  }

  function AllBytes(ws: seq<nat>): (s: seq<byte>)
    requires AreWords(ws)
    ensures |s| == 4 * |ws|
  {
    if ws == [] then [] else WordBytes(ws[0]) + AllBytes(ws[1..])
  }

  lemma Reassemble(w: nat)
    requires w < 0x1_0000_0000
    ensures w % 256 + 256 * (w / 256 % 256) + 65536 * (w / 65536 % 256) + 16777216 * (w / 16777216) == w
  {
    var x := w / 256;
    var y := x / 256;
    assert w / 65536 == y && w / 16777216 == y / 256;
  }

  lemma WordShifts(front: seq<byte>, s: seq<byte>, i: nat)
    requires |front| == 4 && 4 * i + 4 <= |s|
    ensures Word(front + s, i + 1) == Word(s, i)
  {
  }

  lemma {:induction false} WordsOfBytes(ws: seq<nat>)
    requires AreWords(ws)
    ensures Words(AllBytes(ws)) == ws
  {
    if ws != [] {
      var s, rest := AllBytes(ws), AllBytes(ws[1..]);
      WordsOfBytes(ws[1..]);
      Reassemble(ws[0]);
      forall i | 0 <= i < |ws| ensures Words(s)[i] == ws[i] {
        if i > 0 {
          WordShifts(WordBytes(ws[0]), rest, i - 1);
          assert Words(rest)[i - 1] == ws[1..][i - 1];
        }
      }
    }
  }

  /** Every run of whole words is written like this. */
  lemma BytesOfWords(data: seq<byte>)
    requires |data| % 4 == 0
    ensures AreWords(Words(data)) && AllBytes(Words(data)) == data
  {
    WordsOfBytes(Words(data));
    WordsInjective(AllBytes(Words(data)), data);
  }

  /** What the `m`th word from the end counts for in the four sums. */
  function Counts(k: nat, m: nat): nat {
    if k == 0 then 1 else if k == 1 then m else if k == 2 then m * (m + 1) / 2 else m * (m + 1) * (m + 2) / 6
  }

  function Counted(k: nat, ws: seq<nat>): nat {
    if ws == [] then 0 else ws[0] * Counts(k, |ws|) + Counted(k, ws[1..])
  }

  lemma CountsAreWeights(k: nat, m: nat)
    requires k <= 3
    ensures Counts(k, m) == Weight(k, m)
  {
    WeightClosed(m);
  }

  lemma {:induction false} CountedIsSum(k: nat, ws: seq<nat>)
    requires k <= 3
    ensures Counted(k, ws) == Sum(k, ws)
    decreases |ws|
  {
    if ws != [] {
      CountsAreWeights(k, |ws|);
      CountedIsSum(k, ws[1..]);
    }
  }

  /** The checksum of the bytes of some words: each word counts 1, m, m(m+1)/2 and m(m+1)(m+2)/6 times if it
      is the `m`th from the end, modulo 2^64. */
  lemma ChecksumOfWords(ws: seq<nat>)
    requires AreWords(ws)
    ensures Checksum(AllBytes(ws)) ==
      Some(Sums(Counted(0, ws) % 0x1_0000_0000_0000_0000, Counted(1, ws) % 0x1_0000_0000_0000_0000,
                Counted(2, ws) % 0x1_0000_0000_0000_0000, Counted(3, ws) % 0x1_0000_0000_0000_0000))
  {
    WordsOfBytes(ws);
    CountedIsSum(0, ws);
    CountedIsSum(1, ws);
    CountedIsSum(2, ws);
    CountedIsSum(3, ws);
  }

  /** And of any bytes: there is one if they are whole words, and then it is that of those words. */
  lemma ChecksumOfBytes(data: seq<byte>)
    ensures Checksum(data).Some? <==> |data| % 4 == 0
    ensures |data| % 4 == 0 ==> AreWords(Words(data)) && AllBytes(Words(data)) == data
  {
    if |data| % 4 == 0 { BytesOfWords(data); }
  }
}
