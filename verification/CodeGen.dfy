/** The random short-code generator (services/url-service/codegen.go): eight random bytes, read
    as a big-endian number and reduced into the code space. */
module CodeGen {
  import opened Arithmetic
  import opened Options
  import opened Base62

  type Byte = x: int | 0 <= x < 256

  /** `SetBytes`: the big-endian number of a byte string. */
  function FromBytes(b: seq<Byte>): nat {
    if b == [] then 0 else FromBytes(b[..|b| - 1]) * 256 + b[|b| - 1]
  }

  function ToBytes(x: nat, k: nat): (b: seq<Byte>)
    ensures |b| == k
  {
    if k == 0 then [] else ToBytes(x / 256, k - 1) + [x % 256]
  }

  /** The first byte weighs most. */
  lemma {:induction false} FirstByteWeighs(first: Byte, rest: seq<Byte>)
    ensures FromBytes([first] + rest) == first * Pow(256, |rest|) + FromBytes(rest)
    decreases |rest|
  {
    if rest == [] {
      assert ([first] + rest)[..0] == [];
    } else {
      var m := |rest| - 1;
      assert ([first] + rest)[..|rest|] == [first] + rest[..m];
      FirstByteWeighs(first, rest[..m]);
    }
  }

  lemma {:induction false} FromToBytes(x: nat, k: nat)
    requires x < Pow(256, k)
    ensures FromBytes(ToBytes(x, k)) == x
  {
    if k > 0 {
      FromToBytes(x / 256, k - 1);
      assert ToBytes(x, k)[..k - 1] == ToBytes(x / 256, k - 1);
    }
  }

  lemma {:induction false} ToFromBytes(b: seq<Byte>)
    ensures FromBytes(b) < Pow(256, |b|) && ToBytes(FromBytes(b), |b|) == b
    decreases |b|
  {
    if b != [] {
      var m := |b| - 1;
      ToFromBytes(b[..m]);
      DivModUnique(FromBytes(b), 256, FromBytes(b[..m]), b[m]);
      assert b[..m] + [b[m]] == b;
    }
  }

  /** `random` is what the system's random source delivers. */
  method Generate(random: seq<Byte>) returns (code: string)
    requires |random| == 8
    ensures code == Encoded(FromBytes(random), CODE_LENGTH) && IsCode(code)
    ensures |code| == 7 && Value(code) == FromBytes(random) % 3_521_614_606_208
  {
    var n: nat := 0;
    for i := 0 to |random|
      invariant n == FromBytes(random[..i])
    {
      assert random[..i + 1][..i] == random[..i];
      n := n * 256 + random[i];
    }
    assert random[..|random|] == random;
    code := Encode(Some(n));
  }

  // ----- balance

  /** How many of the numbers below `n` satisfy `f`. */
  function Count(n: nat, f: nat -> bool): nat {
    if n == 0 then 0 else Count(n - 1, f) + if f(n - 1) then 1 else 0
  }

  lemma {:induction false} CountAlike(n: nat, f: nat -> bool, g: nat -> bool)
    requires forall x: nat :: x < n ==> f(x) == g(x)
    ensures Count(n, f) == Count(n, g)
  {
    if n > 0 {
      CountAlike(n - 1, f, g);
    }
  }

  /** How many of the numbers below `n` leave remainder `r` modulo `m`. */
  function Residues(n: nat, m: nat, r: nat): nat
    requires m > 0
  {
    Count(n, (x: nat) => x % m == r)
  }

  lemma {:induction false} ResidueCount(n: nat, m: nat, r: nat)
    requires r < m
    ensures Residues(n, m, r) == n / m + if r < n % m then 1 else 0
  {
    if n > 0 {
      ResidueCount(n - 1, m, r);
      DivModStep(n - 1, m);
    } else {
      DivModUnique(0, m, 0, 0);
    }
  }

  predicate Generates(x: nat, k: nat, code: string, len: nat) {
    Encoded(FromBytes(ToBytes(x, k)), len) == code
  }

  /** How many of the byte strings `ToBytes(0, k) .. ToBytes(n - 1, k)` give the code `code` of
      length `len`; for `n = 256^k` these are all the byte strings of length `k`, each once. */
  function Preimages(n: nat, k: nat, code: string, len: nat): nat {
    Count(n, (x: nat) => Generates(x, k, code, len))
  }

  /** The enumeration behind the count is a bijection between numbers and byte strings. */
  lemma EveryInputOnce(b: seq<Byte>, x: nat)
    requires x < Pow(256, |b|)
    ensures ToBytes(x, |b|) == b <==> x == FromBytes(b)
    ensures FromBytes(b) < Pow(256, |b|)
  {
    ToFromBytes(b);
    FromToBytes(x, |b|);
  }

  lemma GeneratesIff(x: nat, k: nat, code: string, len: nat)
    requires x < Pow(256, k) && IsWord(code, len)
    ensures Pow(62, len) > 0 && (Generates(x, k, code, len) <==> x % Pow(62, len) == Value(code))
  {
    FromToBytes(x, k);
    EncodesTo(x, code, len);
  }

  /** Over all inputs of `k` bytes, every code is generated equally often, up to one; for
      `k = 8` and `len = 7` that is 256^8 / 62^7 times. */
  lemma Balanced(k: nat, code: string, len: nat)
    requires IsWord(code, len)
    ensures Pow(62, len) > 0
    ensures var n, m := Pow(256, k), Pow(62, len);
            Preimages(n, k, code, len) == n / m + if Value(code) < n % m then 1 else 0
  {
    var n, m, r := Pow(256, k), Pow(62, len), Value(code);
    EncodesTo(0, code, len);
    forall x: nat | x < n ensures Generates(x, k, code, len) == (x % m == r) {
      GeneratesIff(x, k, code, len);
    }
    CountAlike(n, (x: nat) => Generates(x, k, code, len), (x: nat) => x % m == r);
    ResidueCount(n, m, r);
  }
}
