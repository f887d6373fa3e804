/** The 32-bit FNV-1a hash used to spread instruments over a range and API keys over shards. */
module Fnv1a {
  import opened GoInts

  /** Exclusive or, bit by bit. */
  function Xor(a: nat, b: nat): nat {
    if a == 0 && b == 0 then 0 else 2 * Xor(a / 2, b / 2) + if a % 2 != b % 2 then 1 else 0
  }

  function FnvStep(h: uint32, c: char): uint32 {
    (Xor(h, c as int % 256) * 16777619) % UINT32_MOD
  }

  function Fnv(data: string): uint32 {
    if data == [] then 2166136261 else FnvStep(Fnv(data[..|data| - 1]), data[|data| - 1])
  }

  lemma {:induction false} FnvSnoc(data: string, c: char)
    ensures Fnv(data + [c]) == FnvStep(Fnv(data), c)
  {
    assert (data + [c])[..|data|] == data;
  }

  /** Exclusive or with nothing changes nothing, and doing it twice undoes it. */
  lemma {:induction false} XorUndoes(a: nat, b: nat)
    ensures Xor(a, 0) == a && Xor(0, b) == b
    ensures Xor(Xor(a, b), b) == a
    decreases a + b
  {
    if a > 0 || b > 0 {
      XorUndoes(a / 2, b / 2);
      var x := Xor(a, b);
      assert x / 2 == Xor(a / 2, b / 2) && x % 2 == if a % 2 != b % 2 then 1 else 0;
    }
  }

  /** The hash's published values of "" and "a". */
  lemma KnownHashes()
    ensures Fnv("") == 0x811c9dc5 && Fnv("a") == 0xe40c292c
  {
    assert Fnv("") == 0x811c9dc5;
    hide FnvStep, Fnv;
    FnvSnoc("", 'a');
    assert "" + ['a'] == "a";
    FirstStep();
  }

  lemma FirstStep()
    ensures FnvStep(0x811c9dc5, 'a') == 0xe40c292c
  {
    hide Xor;
    MixedBasis();
    assert 'a' as int % 256 == 97;
  }

  lemma MixedBasis()
    ensures Xor(2166136261, 97) == 2166136228
  {
    XorUndoes(16922939, 0);
    assert Xor(16922939, 0) == 16922939;
    assert Xor(33845879, 1) == 33845878;
    assert Xor(67691758, 3) == 67691757;
    assert Xor(135383516, 6) == 135383514;
    assert Xor(270767032, 12) == 270767028;
    assert Xor(541534065, 24) == 541534057;
    assert Xor(1083068130, 48) == 1083068114;
    assert Xor(2166136261, 97) == 2166136228;
  }

  method HashBytes(data: string) returns (hash: uint32)
    ensures hash == Fnv(data)
  {
    hash := 2166136261;
    var i := 0;
    while i < |data|
      invariant 0 <= i <= |data| && hash == Fnv(data[..i])
    {
      assert data[..i + 1][..i] == data[..i];
      var mixed := Xor(hash, data[i] as int % 256);
      hash := (mixed * 16777619) % UINT32_MOD;
      i := i + 1;
    }
    assert data[..i] == data;
  }
}
