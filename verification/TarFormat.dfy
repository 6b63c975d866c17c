/** The tar archives the file system reads: header fields, paths, where entries lie, and the tree of
    nodes an archive describes. */
module TarFormat {
  import opened Arithmetic

  type Byte = b: nat | b < 256

  type Text = seq<Byte>

  const BLOCK_SIZE: nat := 512
  const SLASH: Byte := 47
  const ZERO: Byte := 48
  const DIRECTORY: Byte := 53

  /** The characters of a field up to its terminating NUL. */
  function CString(field: Text): Text {
    if field == [] || field[0] == 0 then [] else [field[0]] + CString(field[1..])
  }

  // ----- Octal numbers -----

  /** The value of octal digits, most significant first. */
  function OctalValue(digits: Text): int {
    if digits == [] then 0 else 8 * OctalValue(digits[..|digits| - 1]) + (digits[|digits| - 1] - ZERO)
  }

  function Pow8(n: nat): nat {
    if n == 0 then 1 else 8 * Pow8(n - 1)
  }

  /** One more digit in front. */
  lemma {:induction false} OctalFront(d: Byte, digits: Text)
    ensures OctalValue([d] + digits) == (d - ZERO) * Pow8(|digits|) + OctalValue(digits)
  {
    var all := [d] + digits;
    if digits == [] {
      assert all[..0] == [];
    } else {
      var n := |digits| - 1;
      assert all[..|all| - 1] == [d] + digits[..n];
      OctalFront(d, digits[..n]);
      assert (d - ZERO) * Pow8(n + 1) == 8 * ((d - ZERO) * Pow8(n));
    }
  }

  /** The ASCII digits of a number in a field of the given width. */
  function OctalDigits(n: nat, width: nat): Text {
    if width == 0 then [] else OctalDigits(n / 8, width - 1) + [48 + n % 8]
  }

  lemma {:induction false} OctalDigitsValue(n: nat, width: nat)
    requires n < Pow8(width)
    ensures |OctalDigits(n, width)| == width && OctalValue(OctalDigits(n, width)) == n
  {
    if width > 0 {
      assert n / 8 < Pow8(width - 1);
      OctalDigitsValue(n / 8, width - 1);
      var ds := OctalDigits(n, width);
      assert ds[..|ds| - 1] == OctalDigits(n / 8, width - 1);
    }
  }

  /** What the driver reads from a number field: all digits but the first, in an unsigned int. */
  function Number(field: Text): nat {
    if field == [] then 0 else OctalValue(field[1..]) % 0x1_0000_0000
  }

  lemma Pow8Values()
    ensures Pow8(10) == 0x4000_0000 && Pow8(11) == 0x2_0000_0000
  {
    assert Pow8(5) == 0x8000;
  }

  /** A size below 2^30 written in eleven octal digits is read back. */
  lemma NumberReadsBack(n: nat)
    requires n < 0x4000_0000
    ensures |OctalDigits(n, 11)| == 11 && Number(OctalDigits(n, 11)) == n
  {
    Pow8Values();
    hide Pow8;
    hide OctalDigits;
    hide OctalValue;
    OctalDigitsValue(n, 11);
    var ds := OctalDigits(n, 11);
    LeadingZero(n, 10);
    OctalFront(ds[0], ds[1..]);
    assert ds == [ds[0]] + ds[1..];
  }

  lemma {:induction false} LeadingZero(n: nat, width: nat)
    requires n < Pow8(width)
    ensures |OctalDigits(n, width + 1)| == width + 1 && OctalDigits(n, width + 1)[0] == 48
  {
    if width > 0 {
      assert n / 8 < Pow8(width - 1);
      LeadingZero(n / 8, width - 1);
    }
  }

  /** At most eleven octal digits, so that they end in a NUL within a twelve-character field. */
  predicate OctalField(field: Text) {
    |field| <= 11 && forall i | 0 <= i < |field| :: 48 <= field[i] <= 55
  }

  lemma {:induction false} OctalBounded(digits: Text)
    requires forall i | 0 <= i < |digits| :: 48 <= digits[i] <= 55
    ensures 0 <= OctalValue(digits) < Pow8(|digits|)
  {
    if digits != [] { OctalBounded(digits[..|digits| - 1]); }
  }

  lemma {:induction false} Pow8Monotone(a: nat, b: nat)
    requires a <= b
    ensures Pow8(a) <= Pow8(b)
  {
    if a < b { Pow8Monotone(a, b - 1); }
  }

  /** The first of at most eleven digits is not read: every number read back is below 2^30. */
  lemma NumberBound(field: Text)
    requires OctalField(field)
    ensures Number(field) < 0x4000_0000
  {
    if field != [] {
      OctalBounded(field[1..]);
      Pow8Monotone(|field| - 1, 10);
      Pow8Values();
    }
  }

  lemma {:induction false} OctalDigitsFit(n: nat, width: nat)
    requires width <= 11
    ensures OctalField(OctalDigits(n, width)) && |OctalDigits(n, width)| == width
  {
    if width > 0 { OctalDigitsFit(n / 8, width - 1); }
  }

  // ----- Paths -----

  type Path = seq<Text>

  /** The characters up to the first slash. */
  function First(s: Text): (c: Text)
    ensures |c| <= |s| && SLASH !in c && c == s[..|c|] && (|c| < |s| ==> s[|c|] == SLASH)
  {
    if s == [] || s[0] == SLASH then [] else [s[0]] + First(s[1..])
  }

  /** What follows the first slash. */
  function AfterFirst(s: Text): Text {
    if |First(s)| < |s| then s[|First(s)| + 1..] else []
  }

  /** The components of a name, up to the first empty one. */
  function Components(s: Text): Path
    decreases |s|
  {
    if First(s) == [] then [] else [First(s)] + Components(AfterFirst(s))
  }

  predicate Normal(c: Text) {
    c != [] && 47 !in c && 0 !in c
  }

  /** A path's name: its components with slashes between them, and one at the end if so wished. */
  function Name(path: Path, trailing: bool): Text {
    if path == [] then []
    else if |path| == 1 then path[0] + (if trailing then [47] else [])
    else path[0] + [47] + Name(path[1..], trailing)
  }

  lemma {:induction false} FirstIs(c: Text, rest: Text)
    requires SLASH !in c && (rest != [] ==> rest[0] == SLASH)
    ensures First(c + rest) == c
  {
    if c != [] {
      assert (c + rest)[1..] == c[1..] + rest;
      FirstIs(c[1..], rest);
    } else {
      assert c + rest == rest;
    }
  }

  /** A name is taken apart into the components it was put together from. */
  lemma {:induction false} ComponentsOfName(path: Path, trailing: bool)
    requires forall c | c in path :: Normal(c)
    ensures Components(Name(path, trailing)) == path
  {
    if path != [] {
      var c := path[0];
      assert c in path && Normal(c);
      if |path| == 1 {
        TakesOne(c, if trailing then [47] else []);
        assert path == [c];
      } else {
        var more := Name(path[1..], trailing);
        assert c + [47] + more == c + ([47] + more);
        TakesOne(c, [47] + more);
        ComponentsOfName(path[1..], trailing);
      }
    }
  }

  /** The first component of a name, and the rest. */
  lemma TakesOne(c: Text, rest: Text)
    requires Normal(c) && (rest != [] ==> rest[0] == SLASH)
    ensures Components(c + rest) == [c] + Components(if rest == [] then [] else rest[1..])
  {
    FirstIs(c, rest);
    assert AfterFirst(c + rest) == if rest == [] then [] else rest[1..];
  }
}
