/**
  The packed parent word of `user/include/tree.h`: the address of the parent, a multiple of
  4, with the red bits in its two low bits.  The macros work on the word; the cells of module
  WavlShape keep its three parts.  On such words `& 3` is the remainder by 4, `& ~3` drops it,
  `|` of parts without a common bit is their sum, and `^` with a power of two flips one bit.
 */
module WavlWord {
  import opened WavlShape
  import opened WavlTree

  type Word = nat

  predicate Aligned(x: Ref) { x % 4 == 0 }

  function Pack(c: Cell): Word { c.parent + (if c.redL then 1 else 0) + (if c.redR then 2 else 0) }

  function MaskBits(w: Word): Word { w % 4 }

  function Parent(w: Word): Ref { w / 4 * 4 }

  predicate RedLeft(w: Word) { w % 2 != 0 }

  predicate RedRight(w: Word) { w / 2 % 2 != 0 }

  function FlipLeftWord(w: Word): Word { if w % 2 == 0 then w + 1 else w - 1 }

  function FlipRightWord(w: Word): Word
  {
    if w / 2 % 2 == 0 then w + 2 else w - 2
  }

  /** RB_SET_PARENT: keeps the two bits and puts in the address. */
  function SetParentWord(w: Word, src: Ref): Word { MaskBits(w) + src }

  /** The macros that read the word read the parts of the cell. */
  lemma Reads(c: Cell)
    requires Aligned(c.parent)
    ensures Parent(Pack(c)) == c.parent && RedLeft(Pack(c)) == c.redL && RedRight(Pack(c)) == c.redR
  {
    var q, b := c.parent / 4, (if c.redL then 1 else 0) + (if c.redR then 2 else 0);
    assert Pack(c) == 4 * q + b && Pack(c) / 2 == 2 * q + b / 2;
  }

  /** A word determines its cell, given the children. */
  lemma PackInjective(c: Cell, d: Cell)
    requires Aligned(c.parent) && Aligned(d.parent) && c.left == d.left && c.right == d.right
    ensures Pack(c) == Pack(d) <==> c == d
  {
    Reads(c);
    Reads(d);
  }

  /** RB_SET_PARENT on the word is SetParent on the cells. */
  lemma SetParentPacked(mem: Mem, dst: Ref, src: Ref)
    requires dst in mem && Aligned(mem[dst].parent) && Aligned(src)
    ensures Pack(SetParent(mem, dst, src)[dst]) == SetParentWord(Pack(mem[dst]), src)
  {
    Reads(mem[dst]);
  }

  /** RB_FLIP_LEFT and RB_FLIP_RIGHT on the word are FlipLeft and FlipRight on the cells. */
  lemma FlipsPacked(mem: Mem, x: Ref)
    requires x in mem && Aligned(mem[x].parent)
    ensures Pack(FlipLeft(mem, x)[x]) == FlipLeftWord(Pack(mem[x]))
    ensures Pack(FlipRight(mem, x)[x]) == FlipRightWord(Pack(mem[x]))
  {
    Reads(mem[x]);
  }

  /** RB_BITS &= ~RB_RED_MASK and |= RB_RED_MASK are SetBits with both bits clear or set. */
  lemma BothBitsPacked(mem: Mem, x: Ref)
    requires x in mem && Aligned(mem[x].parent)
    ensures Pack(SetBits(mem, x, false, false)[x]) == Parent(Pack(mem[x]))
    ensures Pack(SetBits(mem, x, true, true)[x]) == Parent(Pack(mem[x])) + 3
  {
    Reads(mem[x]);
  }
}
