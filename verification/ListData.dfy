/**
 * The cells of the CoreMark list and the two comparisons its mergesort is called with.
 */
module ListData {
  import opened MachineInts

  /** `list_data` */
  class Info {
    var data16: int16
    var idx: int16
    constructor (data16: int16, idx: int16)
      ensures this.data16 == data16 && this.idx == idx
    {
      this.data16, this.idx := data16, idx;
    }
  }

  /** `list_head` */
  class Node {
    var next: Node?
    var info: Info
    constructor (info: Info)
      ensures this.info == info && next == null
    {
      this.next, this.info := null, info;
    }
  }

  // The two bytes of `data16`, the arithmetic shift and the masks of the C code.

  function Hi(d: int16): (h: nat)
    ensures h < 256
  {
    if d < 0 then d / 256 + 256 else d / 256
  }

  function Lo(d: int16): (l: nat)
    ensures l < 256
  {
    d % 256
  }

  function Bytes(hi: nat, lo: nat): int16
    requires hi < 256 && lo < 256
  {
    if hi < 128 then hi * 256 + lo else hi * 256 + lo - 0x1_0000
  }

  lemma BytesParts(hi: nat, lo: nat)
    requires hi < 256 && lo < 256
    ensures Hi(Bytes(hi, lo)) == hi && Lo(Bytes(hi, lo)) == lo
  {
  }

  /** The word is the number its bytes make, in 16-bit two's complement. */
  lemma BytesOfWord(d: int16)
    ensures d / 256 % 256 == Hi(d) && d % 256 == Lo(d) && Bytes(Hi(d), Lo(d)) == d
  {
  }

  /** The bytes of a data word: the low one is worked on, the high one backs it up. */
  datatype Item = Item(hi: nat, lo: nat)

  function ItemOf(d: int16): Item { Item(Hi(d), Lo(d)) }

  /** Low byte equal to the high byte. */
  predicate Regenerated(i: Item) { i.lo == i.hi }

  /** Bit 7: the low seven bits hold the result of `calc_func`. */
  predicate Cached(i: Item) { i.lo >= 128 }

  /** The low seven bits of a byte. */
  function Low7(lo: nat): nat { if lo >= 128 then lo - 128 else lo }

  /** `cmp_idx`, with or without a results pointer, and `cmp_complex`. */
  datatype Cmp = ByIdx(resIsNull: bool) | ByData

  /** What one comparison establishes about both items it is given. */
  predicate Touched(cmp: Cmp, i: Item) {
    match cmp
    case ByIdx(resIsNull) => resIsNull ==> Regenerated(i)
    case ByData => Cached(i)
  }

  function Key(cmp: Cmp, idx: int, i: Item): int {
    match cmp
    case ByIdx(_) => idx
    case ByData => Low7(i.lo)
  }

  /** `calc_func` gives a value that is in the low byte already: cached there, or to be cached as it is. */
  predicate Determined(lo: nat) { lo >= 128 || lo % 8 >= 2 }

  /**
   * What comparisons may make of an item: touched ones stay, and the value for `calc_func` stays if it is determined.
   */
  predicate Becomes(cmp: Cmp, i: Item, i': Item) {
    && i'.hi == i.hi && (Touched(cmp, i) ==> i' == i)
    && (cmp.ByData? && Determined(i.lo) ==> Low7(i'.lo) == Low7(i.lo))
  }

  lemma BecomesTrans(cmp: Cmp, i: Item, i': Item, i'': Item)
    requires Becomes(cmp, i, i') && Becomes(cmp, i', i'')
    ensures Becomes(cmp, i, i'')
  {
    if cmp.ByData? && i.lo < 128 && i.lo % 8 >= 2 {
      assert i'.lo == i.lo || i'.lo == i.lo + 128;
    }
  }

  /**
   * `calc_func`: the cached value, or a new one that is cached.  Operations 0 and 1 run the
   * state and matrix benchmarks, whose results are arbitrary here.
   */
  method CalcFunc(x: Info) returns (r: int)
    modifies x`data16
    ensures Cached(ItemOf(x.data16)) && r == Low7(Lo(x.data16))
    ensures Hi(x.data16) == old(Hi(x.data16))
    ensures old(Cached(ItemOf(x.data16))) ==> x.data16 == old(x.data16)
    ensures !old(Cached(ItemOf(x.data16))) && old(Lo(x.data16)) % 8 >= 2 ==> r == old(Lo(x.data16))
    ensures x.data16 / 256 == old(x.data16) / 256 && x.data16 % 256 == 128 + r
    ensures old(x.data16) % 256 >= 128 ==> r == old(x.data16) % 256 - 128
    ensures old(x.data16) % 256 < 128 && old(x.data16) % 8 >= 2 ==> r == old(x.data16) % 256
  {
    var data := x.data16;
    if Lo(data) >= 128 {
      return Low7(Lo(data));
    }
    var value: int16 := data;
    if Lo(data) % 8 < 2 {
      var result: int16 :| true;
      value := result;
    }
    r := Low7(Lo(value));
    BytesParts(Hi(data), 128 + r);
    var cached := Bytes(Hi(data), 128 + r);
    x.data16 := cached;
    SameHigh(data, cached, 128 + r);
  }

  lemma SameHigh(d: int16, e: int16, lo: nat)
    requires lo < 256 && e == Bytes(Hi(d), lo)
    ensures e / 256 == d / 256 && e % 256 == lo
  {
  }

  /** The high byte copied over the low one, as `cmp_idx` does without a results pointer. */
  method Regenerate(x: Info)
    modifies x`data16
    ensures x.data16 == Bytes(old(Hi(x.data16)), old(Hi(x.data16)))
    ensures x.data16 / 256 == old(x.data16) / 256 && x.data16 % 256 == x.data16 / 256 % 256
  {
    SameHigh(x.data16, Bytes(Hi(x.data16), Hi(x.data16)), Hi(x.data16));
    BytesOfWord(x.data16);
    x.data16 := Bytes(Hi(x.data16), Hi(x.data16));
  }

  method Compare(cmp: Cmp, a: Info, b: Info) returns (c: int)
    modifies a`data16, b`data16
    ensures Touched(cmp, ItemOf(a.data16)) && Touched(cmp, ItemOf(b.data16))
    ensures c <= 0 <==> Key(cmp, a.idx, ItemOf(a.data16)) <= Key(cmp, b.idx, ItemOf(b.data16))
    ensures Becomes(cmp, old(ItemOf(a.data16)), ItemOf(a.data16))
    ensures Becomes(cmp, old(ItemOf(b.data16)), ItemOf(b.data16))
  {
    match cmp
    case ByIdx(resIsNull) =>
      if resIsNull {
        BytesParts(Hi(a.data16), Hi(a.data16));
        BytesParts(Hi(b.data16), Hi(b.data16));
        Regenerate(a);
        Regenerate(b);
      }
      c := a.idx as int - b.idx as int;
    case ByData =>
      var val1 := CalcFunc(a);
      var val2 := CalcFunc(b);
      c := val1 - val2;
  }
}
