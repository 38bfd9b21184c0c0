/** 64-bit words in memory order, files as byte sequences, and reads at a position. */
module Codec {
  import opened Keys
  import opened Wrappers

  const WORD := 8
  const WORD_LIMIT := 0x1_0000_0000_0000_0000

  ghost function Power(k: nat): (p: nat)
    ensures p > 0
  {
    if k == 0 then 1 else 256 * Power(k - 1)
  }

  /** The `k` low-order bytes of `n`, least significant first. */
  function Bytes(n: nat, k: nat): (s: seq<Byte>)
    ensures |s| == k
  {
    if k == 0 then [] else [n % 256] + Bytes(n / 256, k - 1)
  }

  function Value(s: seq<Byte>): nat {
    if s == [] then 0 else s[0] + 256 * Value(s[1..])
  }

  lemma {:induction false} ValueOfBytes(n: nat, k: nat)
    requires n < Power(k)
    ensures Value(Bytes(n, k)) == n
  {
    if k > 0 {
      assert n / 256 < Power(k - 1);
      ValueOfBytes(n / 256, k - 1);
      assert Bytes(n, k)[1..] == Bytes(n / 256, k - 1);
    }
  }

  /** A 64-bit unsigned integer as it is written to a file. */
  function Word(n: nat): (s: seq<Byte>)
    ensures |s| == WORD
  {
    Bytes(n, WORD)
  }

  lemma {:induction false} WordRoundTrip(n: nat)
    requires n < WORD_LIMIT
    ensures Value(Word(n)) == n
  {
    assert Power(2) == 0x1_0000 && Power(4) == 0x1_0000_0000 && Power(6) == 0x1_0000_0000_0000;
    assert Power(8) == WORD_LIMIT;
    ValueOfBytes(n, WORD);
  }

  /** Words have the low-order byte first. */
  lemma {:induction false} LowFirst(n: nat)
    ensures Word(n) == [n % 256, n / 256 % 256, n / 256 / 256 % 256, n / 256 / 256 / 256 % 256,
                        n / 256 / 256 / 256 / 256 % 256, n / 256 / 256 / 256 / 256 / 256 % 256,
                        n / 256 / 256 / 256 / 256 / 256 / 256 % 256, n / 256 / 256 / 256 / 256 / 256 / 256 / 256 % 256]
  {
    NextByte(n, 7);
    NextByte(n / 256, 6);
    NextByte(n / 256 / 256, 5);
    NextByte(n / 256 / 256 / 256, 4);
    NextByte(n / 256 / 256 / 256 / 256, 3);
    NextByte(n / 256 / 256 / 256 / 256 / 256, 2);
    NextByte(n / 256 / 256 / 256 / 256 / 256 / 256, 1);
    NextByte(n / 256 / 256 / 256 / 256 / 256 / 256 / 256, 0);
    hide Bytes;
    assert Bytes(n / 256 / 256 / 256 / 256 / 256 / 256 / 256 / 256, 0) == [];
  }

  lemma {:induction false} NextByte(n: nat, k: nat)
    ensures Bytes(n, k + 1) == [n % 256] + Bytes(n / 256, k)
  {
  }

  /** Read `n` bytes at `pos`; a read that meets the end of the file fails. */
  function Read(file: seq<Byte>, pos: nat, n: nat): Option<seq<Byte>> {
    if n == 0 then Some([])
    else if pos + n <= |file| then Some(file[pos..pos + n])
    else None
  }

  function ReadWord(file: seq<Byte>, pos: nat): Option<nat> {
    if pos + WORD <= |file| then Some(Value(file[pos..pos + WORD])) else None
  }

  /** `part` stands in `file` at `pos`. */
  ghost predicate StandsAt(file: seq<Byte>, pos: nat, part: seq<Byte>) {
    pos + |part| <= |file| && file[pos..pos + |part|] == part
  }

  lemma {:induction false} StandsSplit(file: seq<Byte>, pos: nat, a: seq<Byte>, b: seq<Byte>)
    ensures StandsAt(file, pos, a + b) <==> StandsAt(file, pos, a) && StandsAt(file, pos + |a|, b)
  {
    if StandsAt(file, pos, a + b) {
      assert a == (a + b)[..|a|] && b == (a + b)[|a|..];
    }
    if StandsAt(file, pos, a) && StandsAt(file, pos + |a|, b) {
      assert file[pos..pos + |a| + |b|] == file[pos..pos + |a|] + file[pos + |a|..pos + |a| + |b|];
    }
  }

  lemma {:induction false} ReadBack(file: seq<Byte>, pos: nat, part: seq<Byte>)
    requires StandsAt(file, pos, part)
    ensures Read(file, pos, |part|) == Some(part)
  {
  }

  lemma {:induction false} ReadWordBack(file: seq<Byte>, pos: nat, n: nat)
    requires StandsAt(file, pos, Word(n)) && n < WORD_LIMIT
    ensures ReadWord(file, pos) == Some(n)
  {
    WordRoundTrip(n);
  }

  /** Concatenation of the pieces, and where each piece starts. */
  ghost function Concat(pieces: seq<seq<Byte>>): seq<Byte> {
    if pieces == [] then [] else Concat(pieces[..|pieces|-1]) + pieces[|pieces|-1]
  }

  ghost function Start(pieces: seq<seq<Byte>>, i: nat): nat
    requires i <= |pieces|
  {
    |Concat(pieces[..i])|
  }

  /** Pieces tile the file: each stands at its start, and the next one starts where it ends. */
  lemma {:induction false} PiecesTile(pieces: seq<seq<Byte>>, i: nat)
    requires i < |pieces|
    ensures StandsAt(Concat(pieces), Start(pieces, i), pieces[i])
    ensures Start(pieces, i + 1) == Start(pieces, i) + |pieces[i]|
    ensures Start(pieces, 0) == 0 && Start(pieces, |pieces|) == |Concat(pieces)|
    decreases |pieces|
  {
    var rest := pieces[..|pieces|-1];
    assert pieces[..|pieces|] == pieces;
    assert pieces[..i+1][..i] == pieces[..i];
    if i < |rest| {
      PiecesTile(rest, i);
      assert rest[..i] == pieces[..i];
      assert StandsAt(Concat(rest), Start(rest, i), rest[i]);
      StandsInside(Concat(rest), pieces[|pieces|-1], Start(rest, i), rest[i]);
    }
  }

  lemma {:induction false} StandsInside(file: seq<Byte>, more: seq<Byte>, pos: nat, part: seq<Byte>)
    requires StandsAt(file, pos, part)
    ensures StandsAt(file + more, pos, part)
  {
  }
}
