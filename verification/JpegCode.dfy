/** Huffman codes as Annex C of ITU-T T.81 derives them from a list of code sizes in
    increasing order, and the intervals of 16-bit windows they occupy. */
module JpegCode {
  import opened Bits
  import opened JpegStream

  /** HUFFSIZE: the size of each code, shortest first. */
  type Sizes = s: seq<nat> | IsSizes(s)

  predicate IsSizes(s: seq<nat>) {
    && (forall i :: 0 <= i < |s| ==> 1 <= s[i] <= 16)
    && (forall i, j :: 0 <= i <= j < |s| ==> s[i] <= s[j])
  }

  /** HUFFCODE (figure C.2): codes count upwards, with a zero appended per extra bit. */
  function Code(s: Sizes, i: nat): nat
    requires i < |s|
  {
    if i == 0 then 0 else Shl(Code(s, i - 1) + 1, s[i] - s[i - 1])
  }

  /** Code i starts the width-bit window w. */
  predicate Matches(s: Sizes, i: nat, w: nat, width: nat) {
    i < |s| && s[i] <= width && Shr(w, width - s[i]) == Code(s, i)
  }

  /** Code i is what the coded bits at position p start with. */
  predicate CodeHere(s: Sizes, bytes: seq<Byte>, p: nat, i: nat) {
    i < |s| && Top(bytes, p, s[i]) == Code(s, i)
  }

  /** Share of the 2^16 windows taken by the first i codes. */
  function Low(s: Sizes, i: nat): nat
    requires i <= |s|
  {
    if i == 0 then 0 else Low(s, i - 1) + Pow2(16 - s[i - 1])
  }

  /** Kraft's inequality. */
  predicate Fits(s: Sizes) {
    Low(s, |s|) <= 0x10000
  }

  /** How many codes have at most l bits. */
  function End(s: Sizes, l: nat): (k: nat)
    ensures k <= |s|
    ensures forall i :: 0 <= i < k ==> s[i] <= l
    ensures forall i :: k <= i < |s| ==> s[i] > l
  {
    if |s| == 0 then 0 else if s[|s| - 1] <= l then |s| else End(s[..|s| - 1], l)
  }

  lemma EndIs(s: Sizes, l: nat, k: nat)
    requires k <= |s| && (k > 0 ==> s[k - 1] <= l) && (k < |s| ==> s[k] > l)
    ensures End(s, l) == k
  {
    var e := End(s, l);
    assert e > 0 ==> s[e - 1] <= l;
  }

  lemma {:induction false} LowIsCode(s: Sizes, i: nat)
    requires i < |s|
    ensures Low(s, i) == Shl(Code(s, i), 16 - s[i])
  {
    if i == 0 {
      ShlZero(16 - s[i]);
    } else {
      LowIsCode(s, i - 1);
      var c, a, b := Code(s, i - 1), s[i - 1], s[i];
      hide Shl;
      ShlShl(c + 1, b - a, 16 - b);
      ShlAdd(c, 1, 16 - a);
      ShlOne(16 - a);
    }
  }

  lemma {:induction false} LowMono(s: Sizes, i: nat, j: nat)
    requires i <= j <= |s|
    ensures Low(s, i) <= Low(s, j)
  {
    if i < j {
      LowMono(s, i, j - 1);
    }
  }

  /** A 16-bit window starts with code i exactly when it lies in that code's interval; the
      intervals follow each other without gaps. */
  lemma MatchInterval(s: Sizes, i: nat, w: nat)
    requires i < |s|
    ensures Matches(s, i, w, 16) <==> Low(s, i) <= w < Low(s, i + 1)
  {
    LowIsCode(s, i);
    ShrInterval(w, 16 - s[i], Code(s, i));
    ShlAdd(Code(s, i), 1, 16 - s[i]);
    ShlOne(16 - s[i]);
  }

  lemma PrefixFree(s: Sizes, i: nat, j: nat, w: nat)
    requires Matches(s, i, w, 16) && Matches(s, j, w, 16)
    ensures i == j
  {
    MatchInterval(s, i, w);
    MatchInterval(s, j, w);
    if i < j {
      LowMono(s, i + 1, j);
    } else if j < i {
      LowMono(s, j + 1, i);
    }
  }

  /** The intervals of codes a .. b - 1 tile the windows from Low(a) to Low(b). */
  lemma {:induction false} Tiling(s: Sizes, a: nat, b: nat, w: nat) returns (i: nat)
    requires a <= b <= |s| && Low(s, a) <= w < Low(s, b)
    ensures a <= i < b && Matches(s, i, w, 16)
    decreases b - a
  {
    if w >= Low(s, b - 1) {
      i := b - 1;
      MatchInterval(s, i, w);
    } else {
      i := Tiling(s, a, b - 1, w);
    }
  }

  lemma NoMatch(s: Sizes, w: nat)
    requires w >= Low(s, |s|)
    ensures forall i: nat :: !Matches(s, i, w, 16)
  {
    forall i: nat | i < |s|
      ensures !Matches(s, i, w, 16)
    {
      MatchInterval(s, i, w);
      LowMono(s, i + 1, |s|);
    }
  }

  /** Among codes of one size the codes are consecutive. */
  lemma {:induction false} SameSizeRun(s: Sizes, a: nat, i: nat, l: nat)
    requires a <= i <= |s| && 1 <= l <= 16
    requires forall k :: a <= k < i ==> s[k] == l
    ensures Low(s, i) == Low(s, a) + Shl(i - a, 16 - l)
  {
    if a == i {
      ShlZero(16 - l);
    } else {
      SameSizeRun(s, a, i - 1, l);
      ShlAdd(i - 1 - a, 1, 16 - l);
      ShlOne(16 - l);
    }
  }

  /** Under Kraft's inequality code i fits its size. */
  lemma CodeFits(s: Sizes, i: nat)
    requires i < |s| && Fits(s)
    ensures Code(s, i) < Pow2(s[i])
  {
    hide Shl, Code, Pow2;
    var l, c := s[i], Code(s, i);
    LowIsCode(s, i);
    LowMono(s, i + 1, |s|);
    ShlAdd(c, 1, 16 - l);
    ShlOne(16 - l);
    ShlPow2(l, 16 - l);
    ShlMono(c + 1, Pow2(l), 16 - l);
    Pow2Values();
  }

  /** Codes of at most n bits are seen in the first n bits of a window. */
  lemma Narrow(s: Sizes, i: nat, w: nat, n: nat, width: nat)
    requires i < |s| && s[i] <= n <= width
    ensures Matches(s, i, w, width) <==> Matches(s, i, Shr(w, width - n), n)
  {
    ShrShr(w, width - n, n - s[i]);
  }

  lemma {:induction false} TopPrefix(bytes: seq<Byte>, p: nat, l: nat, n: nat)
    requires l <= n
    ensures Shr(Top(bytes, p, n), n - l) == Top(bytes, p, l)
  {
    hide Top, Shr, Shl, Mask, Pow2;
    TopSplit(bytes, p, l, n - l);
    Unpack(Top(bytes, p + l, n - l), Top(bytes, p, l), n - l);
  }

  /** A window of the stream shows the codes that are there. */
  lemma MatchIsHere(s: Sizes, bytes: seq<Byte>, p: nat, i: nat, n: nat)
    requires i < |s| ==> s[i] <= n
    ensures Matches(s, i, Top(bytes, p, n), n) <==> CodeHere(s, bytes, p, i)
  {
    if i < |s| {
      TopPrefix(bytes, p, s[i], n);
    }
  }

  lemma HereIsUnique(s: Sizes, bytes: seq<Byte>, p: nat, i: nat, j: nat)
    requires CodeHere(s, bytes, p, i) && CodeHere(s, bytes, p, j)
    ensures i == j
  {
    MatchIsHere(s, bytes, p, i, 16);
    MatchIsHere(s, bytes, p, j, 16);
    PrefixFree(s, i, j, Top(bytes, p, 16));
  }
}
