/**
 The arithmetic of SecureRandom.getRandomInt (random/secure-random.js): the width
 of one draw, the rejection bound, the big-endian reading of a drawn chunk, and the
 reference definitions of "the first accepted draw" in a stream of random bytes.
 The byte source is a finite stream `rng`, the bytes crypto.randomBytes would hand
 out in order; a draw of `width` bytes starting at offset `pos` is rng[pos..pos + width].
 */
module RandomBounds {
  import opened Wrappers

  newtype byte = x: int | 0 <= x < 256

  /** 256 to the power b: the number of distinct b-byte chunks. */
  function Pow256(b: nat): (p: int)
    ensures p >= 1
  {
    if b == 0 then 1 else 256 * Pow256(b - 1)
  }

  lemma {:induction false} Pow256Monotone(a: nat, b: nat)
    requires a <= b
    ensures Pow256(a) <= Pow256(b)
    decreases b - a
  {
    if a < b {
      Pow256Monotone(a, b - 1);
    }
  }

  /**
   The source's byte width ceil(log2(range) / 8), as an integer: the least b >= 0
   with 256^b >= range. For range == 1 this is 0.
   */
  function BytesNeededAsWritten(range: int): (b: nat)
    requires range >= 1
    ensures Pow256(b) >= range
    ensures b == 0 || Pow256(b - 1) < range
    decreases range
  {
    if range == 1 then 0
    else
      var c := (range + 255) / 256;
      var b' := BytesNeededAsWritten(c);
      assert Pow256(b' + 1) == 256 * Pow256(b');
      assert b' > 0 ==> Pow256(b') == 256 * Pow256(b' - 1);
      1 + b'
  }

  /** The width used by the model: the source's width, floored at one byte. */
  function BytesNeeded(range: int): (b: nat)
    requires range >= 1
    ensures b >= 1 && Pow256(b) >= range
    ensures b == 1 || Pow256(b - 1) < range
    ensures range >= 2 ==> b == BytesNeededAsWritten(range)
  {
    if range == 1 then 1 else BytesNeededAsWritten(range)
  }

  /** Every smaller width is too narrow: BytesNeeded is the least b >= 1 with 256^b >= range. */
  lemma BytesNeededIsLeast(range: int, c: nat)
    requires range >= 1
    requires 1 <= c < BytesNeeded(range)
    ensures Pow256(c) < range
  {
    Pow256Monotone(c, BytesNeeded(range) - 1);
  }

  /** maxRange: the largest multiple of range that does not exceed maxNum. */
  function MaxRange(range: int, maxNum: int): (m: int)
    requires 1 <= range <= maxNum
    ensures maxNum / range >= 1 && m == (maxNum / range) * range
    ensures range <= m <= maxNum
    ensures maxNum - m < range
  {
    maxNum - maxNum % range
  }

  /** The rejection bound the sampler uses for a range of the given size. */
  function Bound(range: int): (m: int)
    requires range >= 1
    ensures range <= m <= Pow256(BytesNeeded(range))
  {
    MaxRange(range, Pow256(BytesNeeded(range)))
  }

  /** parseInt(hex(chunk), 16) on a non-empty chunk: the chunk read as a big-endian unsigned number. */
  function BigEndian(chunk: seq<byte>): (v: int)
    ensures 0 <= v < Pow256(|chunk|)
  {
    if chunk == [] then 0
    else BigEndian(chunk[..|chunk| - 1]) * 256 + chunk[|chunk| - 1] as int
  }

  /** The width-byte big-endian encoding of v; the inverse of BigEndian. */
  function ToBytes(v: int, width: nat): (c: seq<byte>)
    requires 0 <= v < Pow256(width)
    ensures |c| == width && BigEndian(c) == v
  {
    if width == 0 then []
    else
      var c := ToBytes(v / 256, width - 1) + [(v % 256) as byte];
      assert c[..width - 1] == ToBytes(v / 256, width - 1);
      c
  }

  /** Reading a chunk and encoding it back at its own width gives the chunk again. */
  lemma {:induction false} ToBytesBigEndian(c: seq<byte>)
    ensures ToBytes(BigEndian(c), |c|) == c
  {
    if c != [] {
      var n := |c|;
      ToBytesBigEndian(c[..n - 1]);
      assert BigEndian(c) / 256 == BigEndian(c[..n - 1]);
      assert c == c[..n - 1] + [c[n - 1]];
    }
  }

  /** Two chunks of one width that read as the same number are the same chunk. */
  lemma BigEndianInjective(c: seq<byte>, d: seq<byte>)
    requires |c| == |d| && BigEndian(c) == BigEndian(d)
    ensures c == d
  {
    ToBytesBigEndian(c);
    ToBytesBigEndian(d);
  }

  /** The values below maxRange that the sampler maps to offset r. */
  ghost function Preimages(maxRange: int, range: int, r: int): set<int>
    requires range >= 1
  {
    set v | 0 <= v < maxRange && v % range == r
  }

  lemma {:induction false} MulAtLeast(a: int, b: int)
    requires a >= 1 && b >= 1
    ensures a * b >= b
    decreases a
  {
    if a > 1 {
      MulAtLeast(a - 1, b);
      assert a * b == (a - 1) * b + b;
    }
  }

  /** Adding a multiple of range does not change the offset t. */
  lemma ShiftMod(q: int, range: int, t: int)
    requires range >= 1 && 0 <= t < range
    ensures (q * range + t) % range == t
  {
    var x := q * range + t;
    var d, m := x / range, x % range;
    assert x == d * range + m;
    var e := d - q;
    assert e * range == t - m;
    if e >= 1 {
      MulAtLeast(e, range);
    } else if e <= -1 {
      MulAtLeast(-e, range);
    }
  }

  /** Dividing an exact multiple recovers the multiplier. */
  lemma DivExact(q: int, range: int)
    requires range >= 1
    ensures (q * range) % range == 0 && (q * range) / range == q
  {
    ShiftMod(q, range, 0);
    var x := q * range;
    var e := x / range - q;
    assert x == (x / range) * range;
    assert e * range == 0;
    if e >= 1 {
      MulAtLeast(e, range);
    } else if e <= -1 {
      MulAtLeast(-e, range);
    }
  }

  /** Raising the limit from q * range by range adds exactly one preimage of r, namely q * range + r. */
  lemma PreimagesStep(range: int, q: nat, r: int)
    requires range >= 1 && 0 <= r < range
    ensures q * range + r !in Preimages(q * range, range, r)
    ensures Preimages(q * range + range, range, r) == Preimages(q * range, range, r) + {q * range + r}
  {
    var lo := q * range;
    forall v | lo <= v < lo + range
      ensures v % range == r <==> v == lo + r
    {
      ShiftMod(q, range, v - lo);
    }
  }

  /** Below k * range, each offset has exactly k preimages. */
  lemma {:induction false} ResidueClassSize(range: int, k: nat, r: int)
    requires range >= 1 && 0 <= r < range
    ensures |Preimages(k * range, range, r)| == k
  {
    if k > 0 {
      ResidueClassSize(range, k - 1, r);
      PreimagesStep(range, k - 1, r);
      assert k * range == (k - 1) * range + range;
    }
  }

  /**
   No modulo bias: every offset r in [0, range) is produced by exactly
   maxRange / range accepted values.
   */
  lemma NoModuloBias(range: int, r: int)
    requires range >= 1 && 0 <= r < range
    ensures Bound(range) % range == 0
    ensures |Preimages(Bound(range), range, r)| == Bound(range) / range
  {
    var q := Pow256(BytesNeeded(range)) / range;
    assert Bound(range) == q * range;
    ResidueClassSize(range, q, r);
    DivExact(q, range);
  }

  /** The accepted draws of the sampler's width that yield offset r. */
  ghost function AcceptedDraws(range: int, r: int): set<seq<byte>>
    requires range >= 1
  {
    Encodings(Preimages(Bound(range), range, r), BytesNeeded(range))
  }

  /** The width-byte encodings of the values in s. */
  ghost function Encodings(s: set<int>, width: nat): set<seq<byte>>
    requires forall v | v in s :: 0 <= v < Pow256(width)
  {
    set v | v in s :: ToBytes(v, width)
  }

  /** Encoding is one-to-one: encoding one more value adds one more chunk. */
  lemma EncodingsAddOne(s: set<int>, x: int, width: nat)
    requires forall v | v in s :: 0 <= v < Pow256(width)
    requires 0 <= x < Pow256(width) && x !in s
    ensures ToBytes(x, width) !in Encodings(s, width)
    ensures Encodings(s + {x}, width) == Encodings(s, width) + {ToBytes(x, width)}
    ensures |Encodings(s + {x}, width)| == |Encodings(s, width)| + 1
  {
    var cx := ToBytes(x, width);
    forall v | v in s
      ensures ToBytes(v, width) != cx
    {
    }
    assert Encodings(s + {x}, width) == Encodings(s, width) + {cx};
  }

  /** The encodings of the k preimages of r below k * range are k distinct chunks. */
  lemma {:induction false} EncodedResidueClassSize(range: int, k: nat, r: int, width: nat)
    requires range >= 1 && 0 <= r < range
    requires k * range <= Pow256(width)
    ensures |Encodings(Preimages(k * range, range, r), width)| == k
  {
    if k > 0 {
      var lo := (k - 1) * range;
      assert k * range == lo + range;
      EncodedResidueClassSize(range, k - 1, r, width);
      var below := Preimages(lo, range, r);
      PreimagesStep(range, k - 1, r);
      assert Preimages(k * range, range, r) == below + {lo + r};
      EncodingsAddOne(below, lo + r, width);
    }
  }

  /**
   A draw is accepted with offset r exactly when it is a chunk of the sampler's width
   that reads below the bound and is congruent to r.
   */
  lemma AcceptedDrawsMembers(range: int, r: int, c: seq<byte>)
    requires range >= 1 && 0 <= r < range
    ensures c in AcceptedDraws(range, r) <==>
      |c| == BytesNeeded(range) && BigEndian(c) < Bound(range) && BigEndian(c) % range == r
  {
    if |c| == BytesNeeded(range) && BigEndian(c) < Bound(range) && BigEndian(c) % range == r {
      ToBytesBigEndian(c);
      assert BigEndian(c) in Preimages(Bound(range), range, r);
    }
  }

  /**
   No modulo bias, counted on the bytes actually drawn: every offset r has the same
   number maxRange / range of accepted draws.
   */
  lemma AcceptedDrawsUniform(range: int, r: int)
    requires range >= 1 && 0 <= r < range
    ensures |AcceptedDraws(range, r)| == Bound(range) / range
  {
    var w := BytesNeeded(range);
    var q := Pow256(w) / range;
    EncodedResidueClassSize(range, q, r, w);
    DivExact(q, range);
  }

  /**
   The draw of width bytes at offset p of the stream, read as a big-endian number
   (randomBytes(width) followed by parseInt(hex, 16)). This is BigEndian read in place,
   without taking a slice, so that proofs about the sampling loop stay cheap;
   DrawAtIsBigEndian states that the two readings agree.
   */
  function DrawAt(rng: seq<byte>, width: nat, p: nat): (v: int)
    requires p + width <= |rng|
    ensures 0 <= v < Pow256(width)
    decreases width
  {
    if width == 0 then 0 else DrawAt(rng, width - 1, p) * 256 + rng[p + width - 1] as int
  }

  /** A draw is the big-endian value of the bytes it covers. */
  lemma {:induction false} DrawAtIsBigEndian(rng: seq<byte>, width: nat, p: nat)
    requires p + width <= |rng|
    ensures DrawAt(rng, width, p) == BigEndian(rng[p..p + width])
    decreases width
  {
    if width > 0 {
      DrawAtIsBigEndian(rng, width - 1, p);
      assert rng[p..p + width][..width - 1] == rng[p..p + width - 1];
    }
  }

  /** Every draw on the grid of width-byte draws that ends at or before p was rejected. */
  ghost predicate RejectedBefore(rng: seq<byte>, width: nat, bound: int, p: nat)
    requires width >= 1
  {
    forall q: nat :: q < p && q % width == 0 && q + width <= |rng| ==> DrawAt(rng, width, q) >= bound
  }

  /**
   The offset of the first accepted draw at or after pos, stepping by width: the draw
   where the source's do-while loop stops.
   */
  function FirstAcceptAt(rng: seq<byte>, width: nat, bound: int, pos: nat): (p: Option<nat>)
    requires width >= 1
    ensures p.Some? ==> pos <= p.value && p.value + width <= |rng|
    ensures p.Some? ==> DrawAt(rng, width, p.value) < bound
    decreases |rng| - pos
  {
    if pos + width > |rng| then None
    else if DrawAt(rng, width, pos) < bound then Some(pos)
    else FirstAcceptAt(rng, width, bound, pos + width)
  }

  lemma ModStep(x: int, w: int)
    requires w >= 1
    ensures (x + w) % w == x % w
  {
    ShiftMod(x / w + 1, w, x % w);
    assert x + w == (x / w + 1) * w + x % w;
  }

  /** Every draw on the grid from pos that comes before the first accepted one was rejected. */
  lemma {:induction false} FirstAcceptIsFirst(rng: seq<byte>, width: nat, bound: int, pos: nat, q: nat)
    requires width >= 1
    requires FirstAcceptAt(rng, width, bound, pos).Some?
    requires pos <= q < FirstAcceptAt(rng, width, bound, pos).value && (q - pos) % width == 0
    ensures DrawAt(rng, width, q) >= bound
    decreases |rng| - pos
  {
    if q > pos {
      assert q - pos >= width by {
        if q - pos < width {
          ShiftMod(0, width, q - pos);
        }
      }
      ModStep(q - pos - width, width);
      FirstAcceptIsFirst(rng, width, bound, pos + width, q);
    }
  }

  /** The first accepted draw lies on the grid of draws that starts at pos. */
  lemma {:induction false} FirstAcceptOnGrid(rng: seq<byte>, width: nat, bound: int, pos: nat)
    requires width >= 1
    requires FirstAcceptAt(rng, width, bound, pos).Some?
    ensures (FirstAcceptAt(rng, width, bound, pos).value - pos) % width == 0
    decreases |rng| - pos
  {
    var p := FirstAcceptAt(rng, width, bound, pos).value;
    if p != pos {
      assert FirstAcceptAt(rng, width, bound, pos) == FirstAcceptAt(rng, width, bound, pos + width);
      FirstAcceptOnGrid(rng, width, bound, pos + width);
      var d := p - (pos + width);
      assert d % width == 0;
      ModStep(d, width);
      assert d + width == p - pos;
    } else {
      ShiftMod(0, width, 0);
    }
  }

  /**
   The search is complete: when the grid from pos holds an accepted draw at q, the
   search finds one, at q or before it.
   */
  lemma {:induction false} FirstAcceptFinds(rng: seq<byte>, width: nat, bound: int, pos: nat, q: nat)
    requires width >= 1
    requires pos <= q && (q - pos) % width == 0 && q + width <= |rng|
    requires DrawAt(rng, width, q) < bound
    ensures FirstAcceptAt(rng, width, bound, pos).Some?
    ensures FirstAcceptAt(rng, width, bound, pos).value <= q
    decreases |rng| - pos
  {
    if q > pos && DrawAt(rng, width, pos) >= bound {
      assert q - pos >= width by {
        if q - pos < width {
          ShiftMod(0, width, q - pos);
        }
      }
      ModStep(q - pos - width, width);
      FirstAcceptFinds(rng, width, bound, pos + width, q);
    }
  }

  /**
   One call of getRandomInt(min, max) on the stream: the value it returns and the
   number of bytes it consumes, or None when the stream holds no accepted draw.
   */
  function SampleInt(min: int, max: int, rng: seq<byte>): (s: Option<(int, nat)>)
    requires min <= max
    ensures s.Some? ==> min <= s.value.0 <= max && BytesNeeded(max - min + 1) <= s.value.1 <= |rng|
  {
    var range := max - min + 1;
    var w := BytesNeeded(range);
    match FirstAcceptAt(rng, w, Bound(range), 0)
    case None => None
    case Some(p) => Some((min + DrawAt(rng, w, p) % range, p + w))
  }

  /**
   The sampler consumes whole draws, and every draw before the one that produced its
   value was rejected.
   */
  lemma SampleIntRejectsEarlierDraws(min: int, max: int, rng: seq<byte>, r: int, used: nat)
    requires min <= max
    requires SampleInt(min, max, rng) == Some((r, used))
    ensures var w := BytesNeeded(max - min + 1);
      && w <= used <= |rng|
      && used % w == 0
      && RejectedBefore(rng, w, Bound(max - min + 1), used - w)
  {
    var range := max - min + 1;
    var w := BytesNeeded(range);
    var p := FirstAcceptAt(rng, w, Bound(range), 0).value;
    FirstAcceptOnGrid(rng, w, Bound(range), 0);
    ModStep(p, w);
    forall q: nat | q < p && q % w == 0 && q + w <= |rng|
      ensures DrawAt(rng, w, q) >= Bound(range)
    {
      FirstAcceptIsFirst(rng, w, Bound(range), 0, q);
    }
  }

  /**
   A call succeeds whenever its stream holds an accepted draw on the grid of draws
   from the start, and it stops reading at the end of that draw at the latest.
   */
  lemma SampleIntSucceeds(min: int, max: int, rng: seq<byte>, q: nat)
    requires min <= max
    requires var w := BytesNeeded(max - min + 1);
      q % w == 0 && q + w <= |rng| && DrawAt(rng, w, q) < Bound(max - min + 1)
    ensures SampleInt(min, max, rng).Some?
    ensures SampleInt(min, max, rng).value.1 <= q + BytesNeeded(max - min + 1)
  {
    FirstAcceptFinds(rng, BytesNeeded(max - min + 1), Bound(max - min + 1), 0, q);
  }

  /**
   The converse of SampleIntRejectsEarlierDraws: an accepted draw on the grid preceded
   only by rejected ones is the draw the call returns, as min plus the draw modulo
   range, having consumed the stream up to its end.
   */
  lemma SampleIntIsFirstAccepted(min: int, max: int, rng: seq<byte>, q: nat)
    requires min <= max
    requires var w := BytesNeeded(max - min + 1);
      q % w == 0 && q + w <= |rng| && DrawAt(rng, w, q) < Bound(max - min + 1)
    requires RejectedBefore(rng, BytesNeeded(max - min + 1), Bound(max - min + 1), q)
    ensures var range := max - min + 1; var w := BytesNeeded(range);
      SampleInt(min, max, rng) == Some((min + DrawAt(rng, w, q) % range, q + w))
  {
    var range := max - min + 1;
    var w := BytesNeeded(range);
    FirstAcceptFinds(rng, w, Bound(range), 0, q);
    FirstAcceptOnGrid(rng, w, Bound(range), 0);
  }

  /**
   The bytes of the draw that produced r form one of the accepted draws for offset
   r - min, a set of the same size for every offset.
   */
  lemma SampleIntDrawIsAccepted(min: int, max: int, rng: seq<byte>, r: int, used: nat)
    requires min <= max
    requires SampleInt(min, max, rng) == Some((r, used))
    ensures var w := BytesNeeded(max - min + 1);
      w <= used <= |rng| && rng[used - w..used] in AcceptedDraws(max - min + 1, r - min)
  {
    var range := max - min + 1;
    var w := BytesNeeded(range);
    var p := FirstAcceptAt(rng, w, Bound(range), 0).value;
    assert used == p + w && r == min + DrawAt(rng, w, p) % range;
    DrawAtIsBigEndian(rng, w, used - w);
    AcceptedDrawsMembers(range, r - min, rng[used - w..used]);
  }

  /** A JavaScript number as far as the sampler can produce one: an integer or NaN. */
  datatype JsNumber = Finite(n: int) | NaN

  /** parseInt(hex, 16): the empty hex string of a zero-byte draw parses to NaN. */
  function ParseHex(chunk: seq<byte>): (r: JsNumber)
    ensures r.NaN? <==> chunk == []
    ensures r.Finite? ==> 0 <= r.n < Pow256(|chunk|) && ToBytes(r.n, |chunk|) == chunk
  {
    ToBytesBigEndian(chunk);
    if chunk == [] then NaN else Finite(BigEndian(chunk))
  }

  /**
   One pass of the source's do-while body with the source's own width: None when the
   draw is rejected, otherwise the value getRandomInt returns. NaN >= maxRange is false,
   so a NaN draw ends the loop, and min + NaN % range is NaN.
   */
  function AsWrittenDraw(min: int, max: int, chunk: seq<byte>): (r: Option<JsNumber>)
    requires min <= max
    requires |chunk| == BytesNeededAsWritten(max - min + 1)
    ensures r == Some(NaN) <==> min == max
    ensures r.Some? && r.value.Finite? ==> min <= r.value.n <= max
    ensures r.None? <==>
      chunk != [] && BigEndian(chunk) >= MaxRange(max - min + 1, Pow256(|chunk|))
  {
    var range := max - min + 1;
    var maxRange := MaxRange(range, Pow256(BytesNeededAsWritten(range)));
    match ParseHex(chunk)
    case NaN => Some(NaN)
    case Finite(v) => if v >= maxRange then None else Some(Finite(min + v % range))
  }

  /** As written, getRandomInt(k, k) draws zero bytes and returns NaN rather than k. */
  lemma SingletonRangeAsWritten(k: int)
    ensures BytesNeededAsWritten(1) == 0
    ensures AsWrittenDraw(k, k, []) == Some(NaN)
  {
  }

  /** For every range of two or more values the corrected width changes nothing. */
  lemma AsWrittenAgreesAboveOne(min: int, max: int, chunk: seq<byte>)
    requires min < max
    requires |chunk| == BytesNeeded(max - min + 1)
    ensures AsWrittenDraw(min, max, chunk) ==
      if BigEndian(chunk) < Bound(max - min + 1)
      then Some(Finite(min + BigEndian(chunk) % (max - min + 1)))
      else None
  {
  }

  /** With the width floored at one byte, a singleton range accepts the first draw and returns k. */
  lemma SingletonRangeCorrected(k: int, rng: seq<byte>)
    requires |rng| >= 1
    ensures BytesNeeded(1) == 1 && Bound(1) == 256
    ensures SampleInt(k, k, rng) == Some((k, 1))
  {
    assert Pow256(1) == 256;
  }
}
