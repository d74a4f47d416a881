/** Morton (Z-order) codes in two and three dimensions, as bit interleaving:
    bit i of the 2D x coordinate is bit 2i of the code and bit i of y is bit
    2i+1; in 3D bit i of x, y and z is bit 3i, 3i+1 and 3i+2. The decoders are
    the external `decodeMorton2X/2Y` and `decodeMorton3X/3Y/3Z` the grid calls;
    the encoders are their inverses, used to show that a sweep over all codes
    reaches every cell. */
module Morton {
  import opened NumericUtil

  /** Gathers every second bit of `c`, starting at bit 0. */
  function Compact2(c: nat): nat
  {
    if c == 0 then 0 else c % 2 + 2 * Compact2(c / 4)
  }

  /** Gathers every third bit of `c`, starting at bit 0. */
  function Compact3(c: nat): nat
  {
    if c == 0 then 0 else c % 2 + 2 * Compact3(c / 8)
  }

  function Decode2X(code: nat): nat { Compact2(code) }
  function Decode2Y(code: nat): nat { Compact2(code / 2) }

  function Decode3X(code: nat): nat { Compact3(code) }
  function Decode3Y(code: nat): nat { Compact3(code / 2) }
  function Decode3Z(code: nat): nat { Compact3(code / 4) }

  /** Where the low bits of an interleaved code land: a code built from two
      (2D) or three (3D) low bits and the rest of the code shifted above them
      gives those bits and that rest back. */
  lemma Split2(b0: nat, b1: nat, rest: nat, code: nat)
    requires b0 < 2 && b1 < 2 && code == b0 + 2 * b1 + 4 * rest
    ensures code % 2 == b0 && (code / 2) % 2 == b1 && code / 4 == rest
  {
    DivModUnique(code, 2, b1 + 2 * rest, b0);
    DivModUnique(code / 2, 2, rest, b1);
    DivModUnique(code, 4, rest, b0 + 2 * b1);
  }

  lemma Split3(b0: nat, b1: nat, b2: nat, rest: nat, code: nat)
    requires b0 < 2 && b1 < 2 && b2 < 2 && code == b0 + 2 * b1 + 4 * b2 + 8 * rest
    ensures code % 2 == b0 && (code / 2) % 2 == b1 && (code / 4) % 2 == b2 && code / 8 == rest
  {
    DivModUnique(code, 2, b1 + 2 * b2 + 4 * rest, b0);
    DivModUnique(code / 2, 2, b2 + 2 * rest, b1);
    DivModUnique(code, 4, b2 + 2 * rest, b0 + 2 * b1);
    DivModUnique(code / 4, 2, rest, b2);
    DivModUnique(code, 8, rest, b0 + 2 * b1 + 4 * b2);
  }

  /** A code is its low bits plus the rest shifted above them. */
  lemma Join2(code: nat)
    ensures code == code % 2 + 2 * ((code / 2) % 2) + 4 * (code / 4)
  {
    DivDiv(code, 2, 2);
  }

  lemma Join3(code: nat)
    ensures code == code % 2 + 2 * ((code / 2) % 2) + 4 * ((code / 4) % 2) + 8 * (code / 8)
  {
    DivDiv(code, 2, 2);
    DivDiv(code, 4, 2);
  }

  /** One step of each decoder: the low bit of its lane, then the rest of the
      code two (2D) or three (3D) bits further on. */
  lemma Decode2Step(c: nat)
    ensures Decode2X(c) == c % 2 + 2 * Decode2X(c / 4)
    ensures Decode2Y(c) == (c / 2) % 2 + 2 * Decode2Y(c / 4)
  {
    DivDiv(c, 2, 4);
    DivDiv(c, 4, 2);
  }

  lemma Decode3Step(c: nat)
    ensures Decode3X(c) == c % 2 + 2 * Decode3X(c / 8)
    ensures Decode3Y(c) == (c / 2) % 2 + 2 * Decode3Y(c / 8)
    ensures Decode3Z(c) == (c / 4) % 2 + 2 * Decode3Z(c / 8)
  {
    DivDiv(c, 2, 8);
    DivDiv(c, 8, 2);
    DivDiv(c, 4, 8);
    DivDiv(c, 8, 4);
  }

  /** Interleaves the bits of `x` and `y` into a 2D Morton code. */
  function Encode2(x: nat, y: nat): nat
    decreases x + y
  {
    if x == 0 && y == 0 then 0 else x % 2 + 2 * (y % 2) + 4 * Encode2(x / 2, y / 2)
  }

  /** Interleaves the bits of `x`, `y` and `z` into a 3D Morton code. */
  function Encode3(x: nat, y: nat, z: nat): nat
    decreases x + y + z
  {
    if x == 0 && y == 0 && z == 0 then 0
    else x % 2 + 2 * (y % 2) + 4 * (z % 2) + 8 * Encode3(x / 2, y / 2, z / 2)
  }

  /** One step of each encoder, whatever the coordinates. */
  lemma Encode2Step(x: nat, y: nat)
    ensures Encode2(x, y) == x % 2 + 2 * (y % 2) + 4 * Encode2(x / 2, y / 2)
  {
    if x == 0 && y == 0 {
      assert x / 2 == 0 && y / 2 == 0;
    }
  }

  lemma Encode3Step(x: nat, y: nat, z: nat)
    ensures Encode3(x, y, z) == x % 2 + 2 * (y % 2) + 4 * (z % 2) + 8 * Encode3(x / 2, y / 2, z / 2)
  {
    if x == 0 && y == 0 && z == 0 {
      assert x / 2 == 0 && y / 2 == 0 && z / 2 == 0;
    }
  }

  /** The decoders read back what the encoders interleave. */
  lemma {:induction false} Decode2OfEncode(x: nat, y: nat)
    ensures Decode2X(Encode2(x, y)) == x && Decode2Y(Encode2(x, y)) == y
    decreases x + y
  {
    if x != 0 || y != 0 {
      var rest := Encode2(x / 2, y / 2);
      Decode2OfEncode(x / 2, y / 2);
      var code := Encode2(x, y);
      Split2(x % 2, y % 2, rest, code);
      Decode2Step(code);
    }
  }

  lemma {:induction false} Decode3OfEncode(x: nat, y: nat, z: nat)
    ensures Decode3X(Encode3(x, y, z)) == x
    ensures Decode3Y(Encode3(x, y, z)) == y
    ensures Decode3Z(Encode3(x, y, z)) == z
    decreases x + y + z
  {
    if x != 0 || y != 0 || z != 0 {
      var rest := Encode3(x / 2, y / 2, z / 2);
      Decode3OfEncode(x / 2, y / 2, z / 2);
      var code := Encode3(x, y, z);
      Split3(x % 2, y % 2, z % 2, rest, code);
      Decode3Step(code);
    }
  }

  /** Decoding loses nothing: re-encoding the decoded coordinates gives back
      the code, so distinct codes decode to distinct coordinates. */
  lemma {:induction false} Encode2OfDecode(c: nat)
    ensures Encode2(Decode2X(c), Decode2Y(c)) == c
    decreases c
  {
    if c > 0 {
      Decode2Step(c);
      Encode2OfDecode(c / 4);
      var x, y := Decode2X(c), Decode2Y(c);
      DivModUnique(x, 2, Decode2X(c / 4), c % 2);
      DivModUnique(y, 2, Decode2Y(c / 4), (c / 2) % 2);
      Encode2Step(x, y);
      Join2(c);
    }
  }

  lemma {:induction false} Encode3OfDecode(c: nat)
    ensures Encode3(Decode3X(c), Decode3Y(c), Decode3Z(c)) == c
    decreases c
  {
    if c > 0 {
      Decode3Step(c);
      Encode3OfDecode(c / 8);
      var x, y, z := Decode3X(c), Decode3Y(c), Decode3Z(c);
      DivModUnique(x, 2, Decode3X(c / 8), c % 2);
      DivModUnique(y, 2, Decode3Y(c / 8), (c / 2) % 2);
      DivModUnique(z, 2, Decode3Z(c / 8), (c / 4) % 2);
      Encode3Step(x, y, z);
      Join3(c);
    }
  }

  /** Coordinates below a power of two `s` encode below `s` squared (2D) or
      `s` cubed (3D): a square or cube of side `s` is covered by the first
      codes. */
  lemma {:induction false} Encode2Bound(x: nat, y: nat, s: nat)
    requires IsPowerOfTwo(s) && x < s && y < s
    ensures Encode2(x, y) < s * s
    decreases s
  {
    if s > 1 {
      var h := s / 2;
      Encode2Bound(x / 2, y / 2, h);
      Encode2Step(x, y);
      DoubleSquare(h);
    }
  }

  lemma {:induction false} Encode3Bound(x: nat, y: nat, z: nat, s: nat)
    requires IsPowerOfTwo(s) && x < s && y < s && z < s
    ensures Encode3(x, y, z) < s * s * s
    decreases s
  {
    if s > 1 {
      var h := s / 2;
      assert s == 2 * h && x / 2 < h && y / 2 < h && z / 2 < h;
      Encode3Bound(x / 2, y / 2, z / 2, h);
      Encode3Step(x, y, z);
      DoubleCube(h);
    }
  }
}
