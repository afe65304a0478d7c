/** The codes that follow from the fixed code lengths are those that the table of section 3.2.6 of
    RFC 1951 lists. */
module FixedCode {
  import opened Bits
  import opened CanonicalCode
  import opened Deflate

  lemma {:induction false} CountRepeat(lens: Lengths, x: nat, n: nat, l: nat)
    requires x <= 15
    ensures Count(lens + Repeat(x, n), l) == Count(lens, l) + (if x == l then n else 0)
  {
    hide Count;
    if n == 0 {
      assert lens + Repeat(x, 0) == lens;
    } else {
      CountRepeat(lens, x, n - 1, l);
      assert lens + Repeat(x, n) == lens + Repeat(x, n - 1) + [x];
      CountAppend(lens + Repeat(x, n - 1), x, l);
    }
  }

  lemma NoCount(l: nat)
    ensures Count([], l) == 0
  {
  }

  /** How often length l comes up among the first s symbols. */
  function Among(s: nat, l: nat): nat {
    if l == 7 then (if s <= 256 then 0 else if s <= 280 then s - 256 else 24)
    else if l == 8 then (if s <= 144 then s else if s <= 280 then 144 else s - 136)
    else if l == 9 then (if s <= 144 then 0 else if s <= 256 then s - 144 else 112)
    else 0
  }

  lemma FixedCount(s: nat, l: nat)
    requires s <= 288
    ensures Count(FixedLengths()[..s], l) == Among(s, l)
  {
    hide Count;
    var lens := FixedLengths()[..s];
    var a := [] + Repeat(8, if s < 144 then s else 144);
    var b := a + Repeat(9, if s < 144 then 0 else if s < 256 then s - 144 else 112);
    var c := b + Repeat(7, if s < 256 then 0 else if s < 280 then s - 256 else 24);
    assert lens == c + Repeat(8, if s < 280 then 0 else s - 280);
    NoCount(l);
    CountRepeat([], 8, if s < 144 then s else 144, l);
    CountRepeat(a, 9, if s < 144 then 0 else if s < 256 then s - 144 else 112, l);
    CountRepeat(b, 7, if s < 256 then 0 else if s < 280 then s - 256 else 24, l);
    CountRepeat(c, 8, if s < 280 then 0 else s - 280, l);
  }

  lemma {:induction false} FixedFirst(l: nat)
    requires l <= 9
    ensures FirstCode(FixedLengths(), l) == if l == 9 then 400 else if l == 8 then 48 else 0
  {
    hide Count, FixedLengths;
    if l > 0 {
      FixedFirst(l - 1);
      FixedCount(288, l - 1);
      WholeTable();
    }
  }

  lemma WholeTable()
    ensures FixedLengths()[..288] == FixedLengths() && |FixedLengths()| == 288
  {
  }

  /** The code of literal or length symbol s, as the table has it. */
  function TableCode(s: nat): (nat, nat)
    requires s < 288
  {
    if s < 144 then (0x30 + s, 8)
    else if s < 256 then (0x190 + s - 144, 9)
    else if s < 280 then (s - 256, 7)
    else (0xC0 + s - 280, 8)
  }

  lemma FixedCodes(s: nat)
    requires s < 288
    ensures |FixedLengths()| == 288 && (CodeOf(FixedLengths(), s), FixedLengths()[s]) == TableCode(s)
  {
    hide Count, FirstCode;
    FixedFirst(FixedLengths()[s]);
    FixedCount(s, FixedLengths()[s]);
  }

  lemma {:induction false} FiveFirst(l: nat)
    requires l <= 5
    ensures FirstCode(FixedDistances(), l) == 0
  {
    hide Count;
    if l > 0 {
      FiveFirst(l - 1);
      NoCount(l - 1);
      CountRepeat([], 5, 32, l - 1);
      assert FixedDistances() == [] + Repeat(5, 32);
    }
  }

  /** Distance codes are the five bits of the symbol. */
  lemma FixedDistanceCodes(s: nat)
    requires s < 32
    ensures |FixedDistances()| == 32 && FixedDistances()[s] == 5 && CodeOf(FixedDistances(), s) == s
  {
    hide Count, FirstCode;
    FiveFirst(5);
    NoCount(5);
    CountRepeat([], 5, s, 5);
    assert FixedDistances()[..s] == [] + Repeat(5, s);
  }
}
