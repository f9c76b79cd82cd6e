/** Rabin–Karp search with a Horner hash in base 256 modulo 101 (`rabin_karp`). */
module RabinKarp {
  import opened Occurrence

  /** The radix `d`. */
  const Base := 256
  /** The modulus `q`. */
  const Modulus := 101

  /** `ord(c)`: the code point of `c`. */
  function Ord(c: char): nat {
    c as nat
  }

  /** `pow(b, e)` on integers. */
  function Pow(b: nat, e: nat): nat {
    if e == 0 then 1 else b * Pow(b, e - 1)
  }

  /** The exact value of `s` read as a number in base 256, digits `ord(s[k])`
      most significant first. */
  ghost function Value(s: string): nat {
    if s == [] then 0 else Base * Value(s[..|s| - 1]) + Ord(s[|s| - 1])
  }

  /** The Horner hash that the first loop accumulates, reducing modulo 101
      after every step, so that it always lies in `[0, 101)`. */
  function Hash(s: string): (h: int)
    ensures 0 <= h < Modulus
  {
    if s == [] then 0 else (Base * Hash(s[..|s| - 1]) + Ord(s[|s| - 1])) % Modulus
  }

  /** Reducing after every step gives the exact value reduced once. */
  lemma {:induction false} HashIsResidue(s: string)
    ensures Hash(s) == Value(s) % Modulus
    decreases |s|
  {
    if s != [] {
      var init := s[..|s| - 1];
      HashIsResidue(init);
      ModTimesBase(Value(init), Ord(s[|s| - 1]));
    }
  }

  /** Reducing before multiplying by the base does not change the residue. */
  lemma ModTimesBase(v: int, c: int)
    ensures (Base * (v % Modulus) + c) % Modulus == (Base * v + c) % Modulus
  {
    var r := v % Modulus;
    assert v == Modulus * (v / Modulus) + r;
    AddMultiple(Base * r + c, Base * (v / Modulus));
  }

  /** Adding a multiple of the modulus does not change the residue. */
  lemma AddMultiple(x: int, k: int)
    ensures (x + Modulus * k) % Modulus == x % Modulus
  {
  }

  /** One step of Horner's rule on a prefix. */
  lemma HashStep(s: string, i: int)
    requires 0 <= i < |s|
    ensures Hash(s[..i + 1]) == (Base * Hash(s[..i]) + Ord(s[i])) % Modulus
  {
    assert s[..i + 1][..i] == s[..i];
  }

  /** Reading the leading digit off: `ord(s[0])` weighs `256^(|s| - 1)`. */
  lemma {:induction false} ValueDropFirst(s: string)
    requires |s| >= 1
    ensures Value(s) == Ord(s[0]) * Pow(Base, |s| - 1) + Value(s[1..])
    decreases |s|
  {
    if |s| > 1 {
      var init := s[..|s| - 1];
      ValueDropFirst(init);
      assert init[1..] == s[1..][..|s| - 2];
      assert Pow(Base, |s| - 1) == Base * Pow(Base, |s| - 2);
    } else {
      assert s[1..] == [];
    }
  }

  /** The rolling update on residues: working with `t == v % 101` and
      `h == p % 101` in place of `v` and `p` gives the same residue. */
  lemma RollResidue(v: int, a: int, p: int, c: int, t: int, h: int)
    requires t == v % Modulus && h == p % Modulus
    ensures (Base * (t - a * h) + c) % Modulus == (Base * (v - a * p) + c) % Modulus
  {
    var v1, p1 := v / Modulus, p / Modulus;
    assert t == v - Modulus * v1;
    assert h == p - Modulus * p1;
    calc {
      a * h;
      a * (p - Modulus * p1);
      { Distribute(a, p, Modulus * p1); }
      a * p - a * (Modulus * p1);
      a * p - Modulus * (a * p1);
    }
    var k := Base * (a * p1 - v1);
    assert Base * (t - a * h) + c == (Base * (v - a * p) + c) + Modulus * k;
    AddMultiple(Base * (v - a * p) + c, k);
  }

  lemma Distribute(a: int, x: int, y: int)
    ensures a * (x - y) == a * x - a * y
  {
  }

  /** The rolling update at the end of each window: dropping `text[i]` and
      taking in `text[i + m]` turns the hash of `text[i..i + m]` into the hash
      of `text[i + 1..i + 1 + m]`, given `h == pow(256, m - 1) % 101`. */
  lemma RollHash(text: string, i: int, m: int, t: int, h: int)
    requires 1 <= m && 0 <= i && i + m < |text|
    requires t == Hash(text[i..i + m])
    requires h == Pow(Base, m - 1) % Modulus
    ensures (Base * (t - Ord(text[i]) * h) + Ord(text[i + m])) % Modulus == Hash(text[i + 1..i + 1 + m])
  {
    var w, w' := text[i..i + m], text[i + 1..i + 1 + m];
    var a, c, p := Ord(text[i]), Ord(text[i + m]), Pow(Base, m - 1);
    ValueDropFirst(w);
    HashIsResidue(w);
    HashIsResidue(w');
    assert w'[..m - 1] == w[1..];
    assert w'[m - 1] == text[i + m];
    assert Value(w') == Base * (Value(w) - a * p) + c;
    RollResidue(Value(w), a, p, c, t, h);
  }

  /** `rabin_karp`: compares the pattern hash with the hash of each window and
      confirms every hash hit by comparing the window itself. */
  method Search(text: string, pattern: string) returns (found: bool)
    ensures found <==> Occurs(text, pattern)
  {
    var m, n := |pattern|, |text|;
    if m > n {
      return false;
    }
    var h := if m >= 1 then Pow(Base, m - 1) % Modulus else 0;
    var p, t := 0, 0;
    for i := 0 to m
      invariant p == Hash(pattern[..i]) && t == Hash(text[..i])
    {
      HashStep(pattern, i);
      HashStep(text, i);
      p := (Base * p + Ord(pattern[i])) % Modulus;
      t := (Base * t + Ord(text[i])) % Modulus;
    }
    assert pattern[..m] == pattern && text[..m] == text[0..m];
    for i := 0 to n - m + 1
      invariant i <= n - m ==> t == Hash(text[i..i + m])
      invariant forall s :: 0 <= s < i ==> !OccursAt(text, pattern, s)
    {
      if p == t && text[i..i + m] == pattern {
        assert OccursAt(text, pattern, i);
        return true;
      }
      if i < n - m {
        RollHash(text, i, m, t, h);
        t := (Base * (t - Ord(text[i]) * h) + Ord(text[i + m])) % Modulus;
        if t < 0 {
          t := t + Modulus;
        }
      }
    }
    return false;
  }

  /** A hash hit is not a match: "ab" and "ju" share the hash 84, yet "ab"
      does not occur in "ju", so the window comparison rejects the hit and
      `Search("ju", "ab")` returns false. */
  lemma CollisionRejected()
    ensures Hash("ju") == Hash("ab") == 84
    ensures !Occurs("ju", "ab")
  {
    assert "ju"[0..2][0] != "ab"[0];
  }
}
