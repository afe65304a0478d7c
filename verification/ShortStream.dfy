/** A well-formed stream that the reader refuses: two letters in a block of fixed codes, and
    nothing after it. */
module ShortStream {
  import opened Bits
  import opened BitStream
  import opened CanonicalCode
  import opened Deflate
  import opened FixedCode
  import opened DeflateFetch
  import opened ZlibReader

  const AA: seq<Byte> := [0x4B, 0x4C, 0x04, 0x00]

  // ----- the bits of the stream

  lemma ByteBits()
    ensures BitOf(0x4B, 0) == 1 && BitOf(0x4B, 1) == 1 && BitOf(0x4B, 2) == 0 && BitOf(0x4B, 3) == 1
    ensures BitOf(0x4B, 4) == 0 && BitOf(0x4B, 5) == 0 && BitOf(0x4B, 6) == 1 && BitOf(0x4B, 7) == 0
    ensures BitOf(0x4C, 0) == 0 && BitOf(0x4C, 1) == 0 && BitOf(0x4C, 2) == 1 && BitOf(0x4C, 3) == 1
    ensures BitOf(0x4C, 4) == 0 && BitOf(0x4C, 5) == 0 && BitOf(0x4C, 6) == 1 && BitOf(0x4C, 7) == 0
    ensures BitOf(4, 0) == 0 && BitOf(4, 1) == 0 && BitOf(4, 2) == 1
    ensures BitOf(4, 3) == 0 && BitOf(4, 4) == 0 && BitOf(4, 5) == 0 && BitOf(4, 6) == 0 && BitOf(4, 7) == 0
  {
  }

  lemma FirstBits()
    ensures Peek(AA, 0, 1) == 1 && Peek(AA, 1, 2) == 1
  {
    hide BitOf, Pow2;
    ByteBits();
  }

  lemma FirstLetter()
    ensures CodeAt(AA, 3, 8) == 145
  {
    hide BitOf, Pow2;
    ByteBits();
  }

  lemma SecondLetter()
    ensures CodeAt(AA, 11, 8) == 145
  {
    hide BitOf, Pow2;
    ByteBits();
  }

  lemma EndCode()
    ensures CodeAt(AA, 19, 7) == 0
  {
    hide BitOf, Pow2;
    ByteBits();
    BitOfZero(0);
    BitOfZero(1);
    assert CodeAt(AA, 19, 3) == 0;
    assert CodeAt(AA, 19, 5) == 0;
  }

  // ----- what the stream means, and what becomes of it

  lemma Tokens()
    ensures NextSymbol(FixedLengths(), AA, 3) == Got(97, 11) && NextSymbol(FixedLengths(), AA, 11) == Got(97, 19)
    ensures NextSymbol(FixedLengths(), AA, 19) == Got(256, 26)
  {
    hide CodeOf, CodeAt, NextSymbol;
    FixedCodes(97);
    FixedCodes(256);
    FirstLetter();
    SecondLetter();
    EndCode();
    NextSymbolIs(FixedLengths(), AA, 3, 97);
    NextSymbolIs(FixedLengths(), AA, 11, 97);
    NextSymbolIs(FixedLengths(), AA, 19, 256);
  }

  lemma Letters()
    ensures Block(FixedLengths(), FixedDistances(), AA, 3, []) == Done([97, 97], 26)
    ensures FetchBlock(FixedLengths(), FixedDistances(), AA, 3, 4, []) == Starved
  {
    hide NextSymbol, Block, FetchBlock, FixedLengths, FixedDistances;
    var lit, dist := FixedLengths(), FixedDistances();
    Tokens();
    var none: seq<Byte> := [];
    assert none + [97] == [97] && [97] + [97] == [97, 97];
    BlockUnfold(lit, dist, AA, 3, []);
    BlockUnfold(lit, dist, AA, 11, [97]);
    BlockUnfold(lit, dist, AA, 19, [97, 97]);
    FetchBlockUnfold(lit, dist, AA, 3, 4, []);
    FetchBlockUnfold(lit, dist, AA, 11, 4, [97]);
    FetchBlockUnfold(lit, dist, AA, 19, 4, [97, 97]);
  }

  /** The stream is well-formed and stands for "aa"; the reader has all four bytes in its reservoir
      from the first refill on, and 13 bits left of them when the end-of-block code is due. */
  lemma WellFormedAndStarved()
    ensures Inflate(AA, 0, []) == Done([97, 97], 26) && Ahead(AA, false) == Starved
  {
    hide Inflate, FetchStream, Block, FetchBlock, Peek, FixedLengths, FixedDistances;
    FirstBits();
    Letters();
    InflateUnfold(AA, 0, []);
    FetchUnfold(AA, 0, 0, []);
  }

  /** So the reader refuses it, whatever room it has. */
  method RefusesWellFormed(obuf: array<Byte>, expandable: bool) returns (ok: bool)
    requires 0 < obuf.Length <= UINT_MAX
    modifies obuf
    ensures !ok
  {
    hide Inflate;
    WellFormedAndStarved();
    var z := new ZBuf(AA, obuf, expandable);
    ghost var why;
    ok, why := z.ParseZlib(false);
  }
}
