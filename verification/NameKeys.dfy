/** The hash of names that the keys of atoms come from. */
module NameKeys {
  import opened Languages

  /** Characters are bytes. */
  function ByteOf(c: char): bv16 {
    (c as int % 0x100) as bv16
  }

  function Mix(value: bv16, name: Token): bv16
    decreases |name|
  {
    if name == "" then value else Mix(MixOne(value, ByteOf(name[0])), name[1..])
  }

  function MixOne(value: bv16, ch: bv16): bv16 {
    value ^ ((value << 5) + (value >> 3) + ch)
  }

  function NameBits(name: Token): bv16 {
    if name == "" then 0 else Mix(30 * ByteOf(name[0]), name)
  }

  function NameKey(name: Token): nat {
    NameBits(name) as int
  }

  lemma OneLetter(c: char)
    ensures NameBits([c]) == MixOne(30 * ByteOf(c), ByteOf(c))
  {
    assert [c][1..] == "";
    assert Mix(MixOne(30 * ByteOf(c), ByteOf(c)), "") == MixOne(30 * ByteOf(c), ByteOf(c));
  }

  lemma KeyFrom(c: char, b: bv16, k: bv16)
    requires ByteOf(c) == b && MixOne(30 * b, b) == k
    ensures NameKey([c]) == k as int
  {
    OneLetter(c);
  }

  lemma ByteIs(c: char, n: nat)
    requires c as int == n < 0x100
    ensures ByteOf(c) == n as bv16
  {
  }

  lemma KeyOfA()
    ensures NameKey("a") == 26322
  {
    ByteIs('a', 97);
    assert MixOne(30 * 97, 97) == 26322;
    KeyFrom('a', 97, 26322);
  }

  lemma KeyOfD()
    ensures NameKey("d") == 29539
  {
    ByteIs('d', 100);
    assert MixOne(30 * 100, 100) == 29539;
    KeyFrom('d', 100, 29539);
  }

  lemma KeyOfE()
    ensures NameKey("e") == 30537
  {
    ByteIs('e', 101);
    assert MixOne(30 * 101, 101) == 30537;
    KeyFrom('e', 101, 30537);
  }

  lemma KeyOfF()
    ensures NameKey("f") == 35728
  {
    ByteIs('f', 102);
    assert MixOne(30 * 102, 102) == 35728;
    KeyFrom('f', 102, 35728);
  }
}
