// Machine words. A word is boxed so that records of words are compared without looking at their bits;
// every operation on bits is a small named function.
module Words {
  import Numbers

  datatype Word = Word(bits: bv32)

  function Zero(): Word { Word(0) }
  function Add(a: Word, b: Word): Word { Word(Numbers.Plus(a.bits, b.bits)) }
  function And(a: Word, b: Word): Word { Word(AndBits(a.bits, b.bits)) }
  function Or(a: Word, b: Word): Word { Word(OrBits(a.bits, b.bits)) }
  function Clear(a: Word, b: Word): Word { Word(AndBits(a.bits, NotBits(b.bits))) }
  function Masked(x: Word, mask: bv32): Word { Word(AndBits(x.bits, mask)) }

  function AndBits(a: bv32, b: bv32): bv32 { a & b }
  function OrBits(a: bv32, b: bv32): bv32 { a | b }
  function NotBits(a: bv32): bv32 { !a }
}
