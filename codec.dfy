/**
  The bitmap/hexmap conversions of the Topology helper: core lists,
  '0'/'1' bitmaps of width core_cnt, and lower-case hex masks padded to
  core_cnt/4 digits.

  The bitmap that cores_to_bin writes has the highest core on the left
  (character k stands for core core_cnt-1-k), but bin_to_cores reads a
  bitmap counting from the left (character i gives core i). The two are
  therefore mirror images of each other, not inverses; DecodeMirrors states
  exactly what the decode composition returns.
 */
module Codec {
  import opened Digits

  datatype Error =
    | MissingComma   // hex_to_dec: gsub! finds no comma, returns nil, and to_i(16) fails on nil

  datatype Result<T> = Ok(value: T) | Err(error: Error)

  predicate StrictlyAscending(s: seq<nat>)
  {
    forall i, j :: 0 <= i < j < |s| ==> s[i] < s[j]
  }

  /** `gsub!(/,/, '')`: the text without its commas, in order. */
  function RemoveCommas(s: string): (r: string)
    ensures forall c :: c in r <==> c in s && c != ','
    ensures ',' !in s ==> r == s
  {
    if s == [] then [] else (if s[0] == ',' then [] else [s[0]]) + RemoveCommas(s[1..])
  }

  /** Stripping the commas of a concatenation strips each part in turn. */
  lemma {:induction false} RemoveCommasAppend(a: string, b: string)
    ensures RemoveCommas(a + b) == RemoveCommas(a) + RemoveCommas(b)
    decreases |a|
  {
    if a == [] {
      assert a + b == b;
    } else {
      assert (a + b)[0] == a[0] && (a + b)[1..] == a[1..] + b;
      RemoveCommasAppend(a[1..], b);
    }
  }

  lemma DigitsHaveNoComma(s: string, base: nat)
    requires AllDigits(s, base)
    ensures ',' !in s
  {
    assert forall i :: 0 <= i < |s| ==> s[i] != ',' by {
      forall i | 0 <= i < |s|
        ensures s[i] != ','
      {
        assert IsHexChar(s[i]);
      }
    }
  }

  /**
    hex_to_dec: deletes the commas and writes the base-16 value in decimal.
    Without a comma the source fails (gsub! returns nil).
   */
  function HexToDec(hexmap: string): (r: Result<string>)
    requires AllDigits(RemoveCommas(hexmap), 16)
    ensures r.Err? <==> ',' !in hexmap
    ensures r.Ok? ==> LowerDigits(r.value, 10)
    ensures r.Ok? ==> FromDigits(r.value, 10) == FromDigits(RemoveCommas(hexmap), 16)
    ensures r.Ok? ==> |r.value| >= 1 && (|r.value| == 1 || r.value[0] != '0')
  {
    if ',' in hexmap then
      var v := FromDigits(RemoveCommas(hexmap), 16);
      FromToDigits(v, 10);
      Ok(ToDigits(v, 10))
    else
      Err(MissingComma)
  }

  /** dec_to_bin: `sprintf("%0<core_cnt>b", d.to_i)`. */
  function DecToBin(d: string, coreCount: nat): (r: string)
    requires AllDigits(d, 10)
    ensures LowerDigits(r, 2) && FromDigits(r, 2) == FromDigits(d, 10)
    ensures |r| >= coreCount
    ensures coreCount >= 1 && FromDigits(d, 10) < Pow(2, coreCount) ==> |r| == coreCount
    ensures |r| > coreCount ==> |r| == 1 || r[0] != '0'
  {
    var v := FromDigits(d, 10);
    FromToDigits(v, 2);
    ZeroPadValue(ToDigits(v, 2), coreCount, 2);
    ZeroPadLower(ToDigits(v, 2), coreCount, 2);
    if coreCount >= 1 && v < Pow(2, coreCount) then
      FixedWidth(v, 2, coreCount);
      ZeroPad(ToDigits(v, 2), coreCount)
    else
      ZeroPad(ToDigits(v, 2), coreCount)
  }

  /** dec_to_hex: `sprintf("%.<core_cnt/4>x", d.to_i)`. */
  function DecToHex(d: string, coreCount: nat): (r: string)
    requires AllDigits(d, 10)
    ensures LowerDigits(r, 16) && FromDigits(r, 16) == FromDigits(d, 10)
    ensures |r| >= coreCount / 4
    ensures coreCount >= 4 && FromDigits(d, 10) < Pow(16, coreCount / 4) ==> |r| == coreCount / 4
    ensures |r| > coreCount / 4 ==> |r| == 1 || r[0] != '0'
  {
    var v := FromDigits(d, 10);
    FromToDigits(v, 16);
    ZeroPadValue(ToDigits(v, 16), coreCount / 4, 16);
    ZeroPadLower(ToDigits(v, 16), coreCount / 4, 16);
    if coreCount >= 4 && v < Pow(16, coreCount / 4) then
      FixedWidth(v, 16, coreCount / 4);
      ZeroPad(ToDigits(v, 16), coreCount / 4)
    else
      ZeroPad(ToDigits(v, 16), coreCount / 4)
  }

  function Bit(b: bool): char
  {
    if b then '1' else '0'
  }

  /**
    The bitmap cores_to_bin writes: core_cnt characters, the leftmost for
    the highest core, the rightmost for core 0.
   */
  function Bitmap(cores: seq<nat>, coreCount: nat): (r: string)
    ensures |r| == coreCount && LowerDigits(r, 2)
  {
    if coreCount == 0 then [] else [Bit(coreCount - 1 in cores)] + Bitmap(cores, coreCount - 1)
  }

  /** The value of a core set: the sum of 2^c over the distinct cores c below coreCount. */
  function Mask(cores: seq<nat>, coreCount: nat): nat
  {
    if coreCount == 0 then 0
    else Mask(cores, coreCount - 1) + (if coreCount - 1 in cores then Pow(2, coreCount - 1) else 0)
  }

  /** Character k of the bitmap is '1' exactly when core coreCount-1-k is in the list. */
  lemma {:induction false} BitmapAt(cores: seq<nat>, coreCount: nat, k: nat)
    requires k < coreCount
    ensures Bitmap(cores, coreCount)[k] == Bit(coreCount - 1 - k in cores)
    decreases coreCount
  {
    if k > 0 {
      BitmapAt(cores, coreCount - 1, k - 1);
    }
  }

  /** Read in base 2, the bitmap is the mask value. */
  lemma {:induction false} BitmapValue(cores: seq<nat>, coreCount: nat)
    ensures FromDigits(Bitmap(cores, coreCount), 2) == Mask(cores, coreCount)
    decreases coreCount
  {
    if coreCount > 0 {
      var b := Bitmap(cores, coreCount);
      assert b[1..] == Bitmap(cores, coreCount - 1);
      BitmapValue(cores, coreCount - 1);
      assert FromDigits(b, 2) == CharValue(b[0]) * Pow(2, coreCount - 1) + FromDigits(b[1..], 2);
    }
  }

  lemma MaskBound(cores: seq<nat>, coreCount: nat)
    ensures Mask(cores, coreCount) < Pow(2, coreCount)
  {
    BitmapValue(cores, coreCount);
    FromDigitsBound(Bitmap(cores, coreCount), 2);
  }

  /** Only membership below coreCount matters: order, duplicates and large entries do not. */
  lemma {:induction false} BitmapSameMembers(a: seq<nat>, b: seq<nat>, coreCount: nat)
    requires forall c :: c < coreCount ==> (c in a <==> c in b)
    ensures Bitmap(a, coreCount) == Bitmap(b, coreCount)
    ensures Mask(a, coreCount) == Mask(b, coreCount)
    decreases coreCount
  {
    if coreCount > 0 {
      BitmapSameMembers(a, b, coreCount - 1);
    }
  }

  /** The mask of a single core is its power of two; a core beyond the count is dropped. */
  lemma {:induction false} MaskSingle(c: nat, coreCount: nat)
    ensures Mask([c], coreCount) == if c < coreCount then Pow(2, c) else 0
    decreases coreCount
  {
    if coreCount > 0 {
      MaskSingle(c, coreCount - 1);
    }
  }

  lemma {:induction false} MaskEmpty(coreCount: nat)
    ensures Mask([], coreCount) == 0
    decreases coreCount
  {
    if coreCount > 0 {
      MaskEmpty(coreCount - 1);
    }
  }

  /** A list holding every core below coreCount has the all-ones mask. */
  lemma {:induction false} MaskFull(cores: seq<nat>, coreCount: nat)
    requires forall c :: 0 <= c < coreCount ==> c in cores
    ensures Mask(cores, coreCount) == Pow(2, coreCount) - 1
    decreases coreCount
  {
    if coreCount > 0 {
      MaskFull(cores, coreCount - 1);
    }
  }

  /**
    cores_to_bin: fills an array of core_cnt zeros, sets entry i to 1 when
    core i is in the list, then joins the reversed array.
   */
  method CoresToBin(cores: seq<nat>, coreCount: nat) returns (bitmap: string)
    ensures bitmap == Bitmap(cores, coreCount)
  {
    var c := new nat[coreCount](_ => 0);
    var i := 0;
    while i < coreCount
      invariant 0 <= i <= coreCount
      invariant forall j :: 0 <= j < i ==> c[j] == (if j in cores then 1 else 0)
      invariant forall j :: i <= j < coreCount ==> c[j] == 0
    {
      if i in cores {
        c[i] := 1;
      }
      i := i + 1;
    }
    bitmap := [];
    var k := 0;
    while k < coreCount
      invariant 0 <= k <= coreCount
      invariant |bitmap| == k
      invariant forall j :: 0 <= j < k ==> bitmap[j] == Bit(coreCount - 1 - j in cores)
    {
      bitmap := bitmap + [if c[coreCount - 1 - k] == 1 then '1' else '0'];
      k := k + 1;
    }
    forall j | 0 <= j < coreCount
      ensures bitmap[j] == Bitmap(cores, coreCount)[j]
    {
      BitmapAt(cores, coreCount, j);
    }
  }

  /** The positions, among the first k characters, that hold '1', counted from the left. */
  function OnesUpTo(s: string, k: nat): seq<nat>
    requires k <= |s|
  {
    if k == 0 then [] else OnesUpTo(s, k - 1) + (if s[k - 1] == '1' then [k - 1] else [])
  }

  /** What bin_to_cores returns: the left-counted positions of '1'. */
  function Ones(s: string): seq<nat>
  {
    OnesUpTo(s, |s|)
  }

  lemma {:induction false} OnesUpToSpec(s: string, k: nat)
    requires k <= |s|
    ensures StrictlyAscending(OnesUpTo(s, k))
    ensures forall i :: i in OnesUpTo(s, k) <==> 0 <= i < k && s[i] == '1'
    decreases k
  {
    if k > 0 {
      OnesUpToSpec(s, k - 1);
      var prev := OnesUpTo(s, k - 1);
      if s[k - 1] == '1' {
        var next := prev + [k - 1];
        assert OnesUpTo(s, k) == next;
        AscendingSnoc(prev, k - 1);
        forall i
          ensures i in next <==> 0 <= i < k && s[i] == '1'
        {
          assert i in next <==> i in prev || i == k - 1;
        }
      } else {
        assert OnesUpTo(s, k) == prev;
      }
    }
  }

  /** A value above everything in an ascending list extends it. */
  lemma AscendingSnoc(prev: seq<nat>, x: nat)
    requires StrictlyAscending(prev) && forall v :: v in prev ==> v < x
    ensures StrictlyAscending(prev + [x])
  {
    var s := prev + [x];
    forall i, j | 0 <= i < j < |s|
      ensures s[i] < s[j]
    {
      assert s[i] == prev[i] && prev[i] in prev;
      if j < |prev| {
        assert s[j] == prev[j];
      }
    }
  }

  /**
    bin_to_cores returns a strictly ascending list holding i exactly when
    character i, counted from the left, is '1'.
   */
  lemma OnesSpec(s: string)
    ensures StrictlyAscending(Ones(s))
    ensures forall i :: i in Ones(s) <==> 0 <= i < |s| && s[i] == '1'
  {
    OnesUpToSpec(s, |s|);
  }

  /** No '1' among the first j characters: nothing is found there. */
  lemma {:induction false} OnesUpToZeros(s: string, j: nat)
    requires j <= |s| && forall i :: 0 <= i < j ==> s[i] == '0'
    ensures OnesUpTo(s, j) == []
    decreases j
  {
    if j > 0 {
      OnesUpToZeros(s, j - 1);
    }
  }

  /**
    A bitmap whose only '1' is its last character (the lowest bit, core 0
    in the encoder's layout) decodes to the last position, k, not to 0 or 1.
   */
  lemma LowBitIsLast(k: nat)
    ensures Ones(Zeros(k) + "1") == [k]
  {
    var s := Zeros(k) + "1";
    OnesUpToZeros(s, k);
    assert s[k] == '1';
  }

  /**
    bin_to_cores: walks the indices of the reversed character list (the same
    indices as the list itself) and tests the unreversed character at each.
   */
  method BinToCores(bitmap: string) returns (cores: seq<nat>)
    ensures cores == Ones(bitmap)
  {
    var c := bitmap;
    var n := |c|;  // c.reverse.each_index: the indices 0 .. |c|-1
    cores := [];
    var i := 0;
    while i < n
      invariant 0 <= i <= n
      invariant cores == OnesUpTo(c, i)
    {
      if c[i] == '1' {
        cores := cores + [i];
      }
      i := i + 1;
    }
  }

  lemma HexWidth(v: nat, coreCount: nat)
    requires coreCount >= 4 && coreCount % 4 == 0 && v < Pow(2, coreCount)
    ensures |ZeroPad(ToDigits(v, 16), coreCount / 4)| == coreCount / 4
  {
    PowTwoFour(coreCount / 4);
    assert 4 * (coreCount / 4) == coreCount;
    FixedWidth(v, 16, coreCount / 4);
  }

  /**
    core_list_to_hexmap: the cores_to_bin bitmap read in base 2 and written
    as `sprintf("%.<core_cnt/4>x")`.
   */
  function CoreListToHexmap(cores: seq<nat>, coreCount: nat): string
  {
    ZeroPad(ToDigits(FromDigits(Bitmap(cores, coreCount), 2), 16), coreCount / 4)
  }

  /**
    The mask is lower-case hex worth the sum of 2^c over the listed cores
    below core_cnt, with no comma, at least core_cnt/4 digits long and
    exactly that long when core_cnt is a multiple of 4.
   */
  lemma CoreListToHexmapSpec(cores: seq<nat>, coreCount: nat)
    ensures ',' !in CoreListToHexmap(cores, coreCount)
    ensures LowerDigits(CoreListToHexmap(cores, coreCount), 16)
    ensures FromDigits(CoreListToHexmap(cores, coreCount), 16) == Mask(cores, coreCount)
    ensures |CoreListToHexmap(cores, coreCount)| >= coreCount / 4
    ensures coreCount >= 4 && coreCount % 4 == 0 ==> |CoreListToHexmap(cores, coreCount)| == coreCount / 4
    ensures |CoreListToHexmap(cores, coreCount)| > coreCount / 4 ==>
            |CoreListToHexmap(cores, coreCount)| == 1 || CoreListToHexmap(cores, coreCount)[0] != '0'
  {
    var v := FromDigits(Bitmap(cores, coreCount), 2);
    BitmapValue(cores, coreCount);
    MaskBound(cores, coreCount);
    FromToDigits(v, 16);
    ZeroPadValue(ToDigits(v, 16), coreCount / 4, 16);
    ZeroPadLower(ToDigits(v, 16), coreCount / 4, 16);
    DigitsHaveNoComma(ZeroPad(ToDigits(v, 16), coreCount / 4), 16);
    if coreCount >= 4 && coreCount % 4 == 0 {
      HexWidth(v, coreCount);
    }
  }

  /** Bit position i of a coreCount-wide bitmap stands for core coreCount-1-i, and that core is listed. */
  predicate Mirrored(cores: seq<nat>, coreCount: nat, i: int)
  {
    0 <= i < coreCount && coreCount - 1 - i in cores
  }

  /** Lines 83-85 of hexmap_to_core_list: hex_to_dec, then dec_to_bin, then bin_to_cores. */
  function HexmapToCores(hexmap: string, coreCount: nat): (r: Result<seq<nat>>)
    requires AllDigits(RemoveCommas(hexmap), 16)
    ensures r.Err? <==> ',' !in hexmap
  {
    match HexToDec(hexmap)
    case Err(e) => Err(e)
    case Ok(d) => Ok(Ones(DecToBin(d, coreCount)))
  }

  /**
    The decode applied to a mask that core_list_to_hexmap wrote (with a comma
    put in somewhere, as the kernel's grouped format has) returns the mirror
    image of the cores: position i is listed exactly when core coreCount-1-i
    was encoded. It is the identity only on mirror-symmetric core sets.
   */
  lemma DecodeMirrors(cores: seq<nat>, coreCount: nat, hexmap: string)
    requires coreCount >= 1
    requires ',' in hexmap && RemoveCommas(hexmap) == CoreListToHexmap(cores, coreCount)
    ensures HexmapToCores(hexmap, coreCount).Ok?
    ensures StrictlyAscending(HexmapToCores(hexmap, coreCount).value)
    ensures forall i :: i in HexmapToCores(hexmap, coreCount).value <==> Mirrored(cores, coreCount, i)
  {
    var bm := Bitmap(cores, coreCount);
    CoreListToHexmapSpec(cores, coreCount);
    DecodedBitmap(cores, coreCount, hexmap);
    assert HexmapToCores(hexmap, coreCount) == Ok(Ones(bm));
    OnesSpec(bm);
    forall i | 0 <= i < coreCount
      ensures bm[i] == '1' <==> coreCount - 1 - i in cores
    {
      BitmapAt(cores, coreCount, i);
    }
  }

  /** The bitmap the decode rebuilds is exactly the one cores_to_bin wrote. */
  lemma DecodedBitmap(cores: seq<nat>, coreCount: nat, hexmap: string)
    requires coreCount >= 1
    requires ',' in hexmap && RemoveCommas(hexmap) == CoreListToHexmap(cores, coreCount)
    ensures HexToDec(hexmap).Ok?
    ensures DecToBin(HexToDec(hexmap).value, coreCount) == Bitmap(cores, coreCount)
  {
    CoreListToHexmapSpec(cores, coreCount);
    var d := HexToDec(hexmap).value;
    assert FromDigits(d, 10) == Mask(cores, coreCount);
    MaskBound(cores, coreCount);
    var b := DecToBin(d, coreCount);
    var bm := Bitmap(cores, coreCount);
    BitmapValue(cores, coreCount);
    assert |b| == coreCount;
    DigitsUnique(b, bm, 2);
  }

  /** A comma-free string, such as every mask core_list_to_hexmap writes, makes the decode fail. */
  lemma EncodedMaskIsRejected(cores: seq<nat>, coreCount: nat)
    ensures HexToDec(CoreListToHexmap(cores, coreCount)) == Err(MissingComma)
  {
    CoreListToHexmapSpec(cores, coreCount);
    assert RemoveCommas(CoreListToHexmap(cores, coreCount)) == CoreListToHexmap(cores, coreCount);
  }

  /** With no core the mask is all zeros: core_cnt/4 of them, or a single "0" below four cores. */
  lemma EmptyListMask(coreCount: nat)
    ensures CoreListToHexmap([], coreCount) == Zeros(if coreCount / 4 >= 1 then coreCount / 4 else 1)
  {
    CoreListToHexmapSpec([], coreCount);
    BitmapValue([], coreCount);
    MaskEmpty(coreCount);
    var z := Zeros(if coreCount / 4 >= 1 then coreCount / 4 else 1);
    var h := CoreListToHexmap([], coreCount);
    assert ToDigits(0, 16) == "0";
    assert |h| == |z|;
    forall k | 0 <= k < |h|
      ensures h[k] == z[k]
    {
    }
  }

  /** A list naming every core gives the all-'f' mask of core_cnt/4 digits. */
  lemma FullListMask(cores: seq<nat>, coreCount: nat)
    requires coreCount >= 4 && coreCount % 4 == 0
    requires forall c :: 0 <= c < coreCount ==> c in cores
    ensures CoreListToHexmap(cores, coreCount) == TopDigits(16, coreCount / 4)
  {
    CoreListToHexmapSpec(cores, coreCount);
    MaskFull(cores, coreCount);
    PowTwoFour(coreCount / 4);
    assert 4 * (coreCount / 4) == coreCount;
    TopDigitsValue(16, coreCount / 4);
    DigitsUnique(CoreListToHexmap(cores, coreCount), TopDigits(16, coreCount / 4), 16);
  }
}
