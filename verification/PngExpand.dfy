/** Rows of 1, 2 or 4 bits per sample expanded to bytes in place: the packed row is right-aligned
    in the space of the expanded one, which is written from the left; and alpha inserted in
    place from the right. */
module PngExpand {
  import opened Bits
  import opened PngRow

  /** Sample i of the s packed into byte b, first sample highest. */
  function Field(b: Byte, depth: nat, s: nat, i: nat): (f: nat)
    requires i < s
    ensures f < Pow2(depth)
  {
    Mask(Shr(b, Times(s - 1 - i, depth)), depth)
  }

  /** The first m samples of a byte, scaled. */
  function ByteSamples(b: Byte, m: nat, depth: nat, s: nat, scale: nat): (r: seq<Byte>)
    requires m <= s
    ensures |r| == m
  {
    seq(m, i requires 0 <= i < m => scale * Field(b, depth, s, i) % 256)
  }

  /** Bytes that hold n samples, s to a byte. */
  function Packed(n: nat, s: nat): (k: nat)
    requires s > 0
    ensures k <= n && (n > 0 ==> k > 0) && (0 < n <= s ==> k == 1)
    ensures n >= s ==> k + s - 1 <= n
  {
    if n == 0 then 0 else if n <= s then 1 else 1 + Packed(n - s, s)
  }

  /** The n samples of a packed row, scaled. */
  function Samples(row: seq<Byte>, n: nat, depth: nat, s: nat, scale: nat): (r: seq<Byte>)
    requires s > 0 && |row| == Packed(n, s)
    ensures |r| == n
    decreases n
  {
    if n == 0 then []
    else if n <= s then ByteSamples(row[0], n, depth, s, scale)
    else ByteSamples(row[0], s, depth, s, scale) + Samples(row[1..], n - s, depth, s, scale)
  }

  // ----- packing, the inverse

  function Horner(fields: seq<nat>, depth: nat): nat {
    if |fields| == 0 then 0
    else Shl(Horner(fields[..|fields| - 1], depth), depth) + fields[|fields| - 1]
  }

  /** Each sample can be read back out of the number the samples were packed into. */
  lemma {:induction false} FieldOfHorner(fields: seq<nat>, depth: nat, i: nat)
    requires i < |fields| && forall k :: 0 <= k < |fields| ==> fields[k] < Pow2(depth)
    ensures Mask(Shr(Horner(fields, depth), Times(|fields| - 1 - i, depth)), depth) == fields[i]
  {
    var n := |fields| - 1;
    var init := Horner(fields[..n], depth);
    Unpack(fields[n], init, depth);
    if i < n {
      FieldOfHorner(fields[..n], depth, i);
      ShrShr(Horner(fields, depth), depth, Times(n - 1 - i, depth));
    } else {
      assert Shr(Horner(fields, depth), 0) == Horner(fields, depth);
    }
  }

  /** A full byte of packed samples unpacks to them. */
  lemma UnpackPacked(fields: seq<nat>, depth: nat, i: nat)
    requires i < |fields| && (forall k :: 0 <= k < |fields| ==> fields[k] < Pow2(depth))
    requires Horner(fields, depth) < 256
    ensures Field(Horner(fields, depth), depth, |fields|, i) == fields[i]
  {
    FieldOfHorner(fields, depth, i);
  }

  lemma {:induction false} HornerBound(fields: seq<nat>, depth: nat)
    requires forall k :: 0 <= k < |fields| ==> fields[k] < Pow2(depth)
    ensures Horner(fields, depth) < Pow2(Times(|fields|, depth))
  {
    if |fields| > 0 {
      var n := |fields| - 1;
      HornerBound(fields[..n], depth);
      var init := Horner(fields[..n], depth);
      ShlAdd(init, 1, depth);
      ShlOne(depth);
      ShlMono(init + 1, Pow2(Times(n, depth)), depth);
      ShlPow2(Times(n, depth), depth);
    }
  }

  /** A row of samples packed s to a byte, the last byte filled up with zeros. */
  function Pack(v: seq<Byte>, depth: nat, s: nat): (r: seq<Byte>)
    requires s > 0
    ensures |r| == Packed(|v|, s)
    decreases |v|
  {
    if |v| == 0 then []
    else if |v| <= s then [Horner(v + seq(s - |v|, _ => 0), depth) % 256]
    else [Horner(v[..s], depth) % 256] + Pack(v[s..], depth, s)
  }

  function Scaled(v: seq<Byte>, scale: nat): (r: seq<Byte>)
    ensures |r| == |v|
  {
    seq(|v|, k requires 0 <= k < |v| => scale * v[k] % 256)
  }

  predicate InDepth(v: seq<Byte>, depth: nat) {
    forall k :: 0 <= k < |v| ==> v[k] < Pow2(depth)
  }

  lemma FieldsFill(fields: seq<Byte>, depth: nat)
    requires depth in {1, 2, 4} && |fields| == 8 / depth && InDepth(fields, depth)
    ensures Horner(fields, depth) < 256
  {
    hide Horner, Times;
    HornerBound(fields, depth);
    TimesIs(8 / depth, depth);
    Pow2Values();
  }

  lemma ByteOfPacked(fields: seq<Byte>, m: nat, depth: nat, scale: nat)
    requires depth in {1, 2, 4} && |fields| == 8 / depth && InDepth(fields, depth) && m <= |fields|
    ensures ByteSamples(Horner(fields, depth) % 256, m, depth, 8 / depth, scale) == Scaled(fields[..m], scale)
  {
    hide Field, Horner, Pow2;
    FieldsFill(fields, depth);
    var b := Horner(fields, depth) % 256;
    forall i | 0 <= i < m
      ensures Field(b, depth, 8 / depth, i) == fields[..m][i]
    {
      UnpackPacked(fields, depth, i);
    }
  }

  lemma ScaledJoin(v: seq<Byte>, w: seq<Byte>, scale: nat)
    ensures Scaled(v + w, scale) == Scaled(v, scale) + Scaled(w, scale)
  {
  }

  lemma LastByte(v: seq<Byte>, depth: nat, scale: nat)
    requires depth in {1, 2, 4} && InDepth(v, depth) && 0 < |v| <= 8 / depth
    ensures Samples(Pack(v, depth, 8 / depth), |v|, depth, 8 / depth, scale) == Scaled(v, scale)
  {
    hide ByteSamples, Horner, Scaled;
    var full := v + seq(8 / depth - |v|, _ => 0);
    ByteOfPacked(full, |v|, depth, scale);
    assert full[..|v|] == v;
  }

  lemma FirstByte(v: seq<Byte>, depth: nat, s: nat, scale: nat)
    requires 0 < s < |v|
    ensures Samples(Pack(v, depth, s), |v|, depth, s, scale)
         == ByteSamples(Horner(v[..s], depth) % 256, s, depth, s, scale) + Samples(Pack(v[s..], depth, s), |v| - s, depth, s, scale)
  {
    hide ByteSamples, Horner, Packed;
    assert Pack(v, depth, s)[1..] == Pack(v[s..], depth, s);
  }

  lemma NoSamples(depth: nat, s: nat, scale: nat)
    requires s > 0
    ensures Samples(Pack([], depth, s), 0, depth, s, scale) == Scaled([], scale)
  {
  }

  /** A packed row of samples expands to the samples, scaled. */
  lemma {:induction false} SamplesOfPacked(v: seq<Byte>, depth: nat, scale: nat)
    requires depth in {1, 2, 4} && InDepth(v, depth)
    ensures Samples(Pack(v, depth, 8 / depth), |v|, depth, 8 / depth, scale) == Scaled(v, scale)
    decreases |v|
  {
    hide ByteSamples, Horner, Scaled, Pow2, Packed, Samples, Pack;
    var s := 8 / depth;
    if |v| == 0 {
      NoSamples(depth, s, scale);
    } else if |v| <= s {
      LastByte(v, depth, scale);
    } else {
      var first, rest := v[..s], v[s..];
      assert first[..s] == first && first + rest == v;
      ByteOfPacked(first, s, depth, scale);
      SamplesOfPacked(rest, depth, scale);
      ScaledJoin(first, rest, scale);
      FirstByte(v, depth, s, scale);
    }
  }

  const DEPTH_SCALE: seq<nat> := [0, 0xFF, 0x55, 0, 0x11, 0, 0, 0, 0x01]

  /** Greyscale samples are stretched to the whole range 0 .. 255, without truncation. */
  lemma ScaleExact(depth: nat, f: nat)
    requires depth in {1, 2, 4} && f < Pow2(depth)
    ensures DEPTH_SCALE[depth] * (Pow2(depth) - 1) == 255
    ensures DEPTH_SCALE[depth] * f % 256 == DEPTH_SCALE[depth] * f
  {
    Pow2Values();
  }

  // ----- in place

  /** Expands the first m samples of the byte at src to the bytes from cur on; the byte is read
      again for every sample, and only the last write may hit it. */
  method UnpackByte(out: array<Byte>, cur: nat, src: nat, m: nat, depth: nat, s: nat, scale: nat)
    requires 0 < m <= s && cur + m <= src + 1 <= out.Length
    modifies out
    ensures out[cur..cur + m] == ByteSamples(old(out[src]), m, depth, s, scale)
    ensures Within(old(out[..]), out[..], cur, cur + m)
  {
    hide Field;
    ghost var b := out[src];
    for i := 0 to m
      invariant i < m ==> out[src] == b
      invariant out[cur..cur + i] == ByteSamples(b, i, depth, s, scale)
      invariant Within(old(out[..]), out[..], cur, cur + i)
    {
      out[cur + i] := scale * Field(out[src], depth, s, i) % 256;
    }
  }

  /** k samples are still to be expanded: the bytes that hold them end the row's space, and what
      has been written is the rest of the wanted row. */
  ghost predicate Remaining(s: seq<Byte>, start: nat, end: nat, n: nat, k: nat, depth: nat, per: nat, scale: nat,
                            rest: seq<Byte>, want: seq<Byte>)
    requires per > 0
  {
    && k <= n && start + n <= end <= |s| && |rest| == Packed(k, per)
    && s[end - |rest|..end] == rest
    && want == s[start..start + n - k] + Samples(rest, k, depth, per, scale)
  }

  /** No packed byte is overwritten before its samples have been read. */
  lemma RoomForByte(s: seq<Byte>, start: nat, end: nat, n: nat, k: nat, m: nat, depth: nat, per: nat, scale: nat,
                    rest: seq<Byte>, want: seq<Byte>)
    requires per > 0 && k > 0 && m == (if k < per then k else per)
    requires Remaining(s, start, end, n, k, depth, per, scale, rest, want)
    ensures |rest| > 0 && s[end - |rest|] == rest[0] && start + n - k + m <= end - |rest| + 1
  {
    hide Samples;
    assert s[end - |rest|..end][0] == s[end - |rest|];
  }

  lemma AroundByte(s: seq<Byte>, s': seq<Byte>, start: nat, cur: nat, m: nat, a: nat, end: nat)
    requires start <= cur && cur + m <= a + 1 <= end <= |s| && Within(s, s', cur, cur + m)
    ensures |s'| == |s| && s'[a + 1..end] == s[a..end][1..]
    ensures s'[start..cur + m] == s[start..cur] + s'[cur..cur + m]
  {
  }

  /** One packed byte expanded. */
  lemma ByteExpanded(s: seq<Byte>, s': seq<Byte>, start: nat, end: nat, n: nat, k: nat, m: nat, depth: nat, per: nat,
                     scale: nat, rest: seq<Byte>, want: seq<Byte>)
    requires per > 0 && k > 0 && m == (if k < per then k else per)
    requires Remaining(s, start, end, n, k, depth, per, scale, rest, want) && |rest| > 0
    requires var cur := start + n - k;
      && cur + m <= end - |rest| + 1 && Within(s, s', cur, cur + m)
      && s'[cur..cur + m] == ByteSamples(rest[0], m, depth, per, scale)
    ensures Remaining(s', start, end, n, k - m, depth, per, scale, rest[1..], want)
  {
    hide Samples, ByteSamples, Packed, Within;
    var cur := start + n - k;
    NextSamples(rest, k, m, depth, per, scale);
    AroundByte(s, s', start, cur, m, end - |rest|, end);
    Associate(s[start..cur], s'[cur..cur + m], Samples(rest[1..], k - m, depth, per, scale));
  }

  /** Expands a row of n samples whose packed bytes end where the row's space ends. */
  method ExpandRow(out: array<Byte>, start: nat, end: nat, n: nat, depth: nat, s: nat, scale: nat,
                   ghost row: seq<Byte>)
    requires s > 0 && |row| == Packed(n, s) && start + n <= end <= out.Length
    requires out[end - |row|..end] == row
    modifies out
    ensures out[start..start + n] == Samples(row, n, depth, s, scale)
    ensures Within(old(out[..]), out[..], start, start + n)
  {
    hide Samples, Packed, Within, Remaining, ByteSamples;
    Unchanged(out[..], start);
    var cur, src, k := start, end - Packed(n, s), n;
    ghost var rest, want := row, Samples(row, n, depth, s, scale);
    AllRemaining(out[..], start, end, n, depth, s, scale, row);
    while k > 0
      invariant 0 <= k <= n && cur == start + n - k && src == end - |rest|
      invariant Remaining(out[..], start, end, n, k, depth, s, scale, rest, want)
      invariant Within(old(out[..]), out[..], start, cur)
    {
      var m := if k < s then k else s;
      ghost var before := out[..];
      RoomForByte(before, start, end, n, k, m, depth, s, scale, rest, want);
      UnpackByte(out, cur, src, m, depth, s, scale);
      ByteExpanded(before, out[..], start, end, n, k, m, depth, s, scale, rest, want);
      WithinTrans(old(out[..]), before, out[..], start, cur, cur + m);
      rest := rest[1..];
      cur, src, k := cur + m, src + 1, k - m;
    }
    NoneRemaining(out[..], start, end, n, depth, s, scale, rest, want);
  }

  lemma AllRemaining(s: seq<Byte>, start: nat, end: nat, n: nat, depth: nat, per: nat, scale: nat, row: seq<Byte>)
    requires per > 0 && start + n <= end <= |s| && |row| == Packed(n, per) && s[end - |row|..end] == row
    ensures Remaining(s, start, end, n, n, depth, per, scale, row, Samples(row, n, depth, per, scale))
  {
    hide Samples;
    assert s[start..start] == [];
  }

  lemma NoneRemaining(s: seq<Byte>, start: nat, end: nat, n: nat, depth: nat, per: nat, scale: nat, rest: seq<Byte>,
                      want: seq<Byte>)
    requires per > 0 && Remaining(s, start, end, n, 0, depth, per, scale, rest, want)
    ensures s[start..start + n] == want
  {
  }

  lemma WithinTrans(s: seq<Byte>, s': seq<Byte>, s'': seq<Byte>, a: int, b: int, c: int)
    requires a <= b <= c && Within(s, s', a, b) && Within(s', s'', b, c)
    ensures Within(s, s'', a, c)
  {
  }

  lemma NextSamples(row: seq<Byte>, k: nat, m: nat, depth: nat, s: nat, scale: nat)
    requires 0 < s && 0 < k && |row| == Packed(k, s) && m == (if k < s then k else s)
    ensures |row| > 0 && |row[1..]| == Packed(k - m, s)
    ensures Samples(row, k, depth, s, scale)
         == ByteSamples(row[0], m, depth, s, scale) + Samples(row[1..], k - m, depth, s, scale)
  {
    hide ByteSamples;
  }

  lemma Associate(a: seq<Byte>, b: seq<Byte>, c: seq<Byte>)
    ensures a + (b + c) == a + b + c
  {
  }

  /** Pixels of n bytes with `extra` bytes of full alpha after each. */
  function Spread(s: seq<Byte>, n: nat, extra: nat): (r: seq<Byte>)
    requires n > 0
  {
    if |s| < n then [] else s[..n] + seq(extra, _ => 255) + Spread(s[n..], n, extra)
  }

  lemma SpreadFirst(px: seq<Byte>, rest: seq<Byte>, n: nat)
    requires n == |px| > 0
    ensures Spread(px + rest, n, 1) == px + [255] + Spread(rest, n, 1)
  {
    assert (px + rest)[..n] == px && (px + rest)[n..] == rest;
  }

  lemma SpreadNothing(n: nat)
    requires n > 0
    ensures Spread([], n, 1) == []
  {
  }

  /** Moving the pixel at b to a, behind it, and the pixels after it already done. */
  lemma AlphaStep(was: seq<Byte>, s: seq<Byte>, s': seq<Byte>, a: nat, e: nat, b: nat, f: nat, n: nat)
    requires n > 0 && b <= a && a + n + 1 <= e <= |was| && b + n <= f <= |was|
    requires Within(was, s, a + n + 1, e) && s[a + n + 1..e] == Spread(was[b + n..f], n, 1)
    requires Within(s, s', a, a + n + 1) && s'[a..a + n + 1] == s[b..b + n] + [255]
    ensures Within(was, s', a, e) && s'[a..e] == Spread(was[b..f], n, 1)
  {
    hide Spread;
    var px := was[b..b + n];
    SpreadFirst(px, was[b + n..f], n);
    assert was[b..f] == px + was[b + n..f];
    assert s[b..b + n] == px;
    assert s'[a + n + 1..e] == s[a + n + 1..e];
    assert s'[a..e] == s'[a..a + n + 1] + s'[a + n + 1..e];
  }

  method MovePixel1(out: array<Byte>, dst: nat, src: nat)
    requires src <= dst && dst + 2 <= out.Length
    modifies out
    ensures out[dst..dst + 2] == old(out[src..src + 1]) + [255]
    ensures Within(old(out[..]), out[..], dst, dst + 2)
  {
    out[dst + 1] := 255;
    out[dst] := out[src];
  }

  /** Greyscale: x samples become x pixels with alpha, from the last to the first. */
  method InsertAlpha1(out: array<Byte>, start: nat, x: nat)
    requires start + 2 * x <= out.Length
    modifies out
    ensures out[start..start + 2 * x] == Spread(old(out[start..start + x]), 1, 1)
    ensures Within(old(out[..]), out[..], start, start + 2 * x)
  {
    hide Spread, Within;
    ghost var was := out[..];
    var q := x;
    SpreadNothing(1);
    Unchanged(was, start + 2 * x);
    assert was[start + q..start + x] == [];
    while q > 0
      invariant 0 <= q <= x
      invariant Within(was, out[..], start + 2 * q, start + 2 * x)
      invariant out[..][start + 2 * q..start + 2 * x] == Spread(was[start + q..start + x], 1, 1)
    {
      ghost var before := out[..];
      q := q - 1;
      MovePixel1(out, start + 2 * q, start + q);
      AlphaStep(was, before, out[..], start + 2 * q, start + 2 * x, start + q, start + x, 1);
    }
  }

  lemma Unchanged(s: seq<Byte>, a: int)
    ensures Within(s, s, a, a)
  {
  }

  method MovePixel3(out: array<Byte>, dst: nat, src: nat)
    requires src <= dst && dst + 4 <= out.Length
    modifies out
    ensures out[dst..dst + 4] == old(out[src..src + 3]) + [255]
    ensures Within(old(out[..]), out[..], dst, dst + 4)
  {
    out[dst + 3] := 255;
    out[dst + 2] := out[src + 2];
    out[dst + 1] := out[src + 1];
    out[dst] := out[src];
  }

  /** Colour: the same for pixels of three samples. */
  method InsertAlpha3(out: array<Byte>, start: nat, x: nat)
    requires start + 4 * x <= out.Length
    modifies out
    ensures out[start..start + 4 * x] == Spread(old(out[start..start + 3 * x]), 3, 1)
    ensures Within(old(out[..]), out[..], start, start + 4 * x)
  {
    hide Spread, Within;
    ghost var was := out[..];
    var q := x;
    SpreadNothing(3);
    Unchanged(was, start + 4 * x);
    assert was[start + 3 * q..start + 3 * x] == [];
    while q > 0
      invariant 0 <= q <= x
      invariant Within(was, out[..], start + 4 * q, start + 4 * x)
      invariant out[..][start + 4 * q..start + 4 * x] == Spread(was[start + 3 * q..start + 3 * x], 3, 1)
    {
      ghost var before := out[..];
      q := q - 1;
      MovePixel3(out, start + 4 * q, start + 3 * q);
      AlphaStep(was, before, out[..], start + 4 * q, start + 4 * x, start + 3 * q, start + 3 * x, 3);
    }
  }
}
