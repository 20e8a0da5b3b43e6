/** The paging-entry layout of kernel/arch/x64/structures.h.  Masks and shifts are written as
    `%` and `/` on numbers; module Bitwise shows that they are the C bit operations. */
module Structures {
  const TWO64 := 0x1_0000_0000_0000_0000
  const FRAME_LIMIT := 0x100_0000_0000
  const PAGE_COUNT := 0x10_0000_0000

  const PSE_WRITEABLE := 2
  const PSE_USER_MODE := 4

  /** A `uint64_t`. */
  type Word = w: int | 0 <= w < TWO64

  predicate Present(e: nat) { e % 2 == 1 }

  predicate Writeable(e: nat) { e / 2 % 2 == 1 }

  predicate UserMode(e: nat) { e / 4 % 2 == 1 }

  predicate PageSize(e: nat) { e / 128 % 2 == 1 }

  function PsePtr(e: nat): nat {
    e % 0x10_0000_0000_0000 / 4096 * 4096
  }

  function Pml4Index(vaddr: Word): nat { vaddr / 0x80_0000_0000 % 512 }

  function PdptIndex(vaddr: Word): nat { vaddr / 0x4000_0000 % 512 }

  function PdtIndex(vaddr: Word): nat { vaddr / 0x20_0000 % 512 }

  function PtIndex(vaddr: Word): nat { vaddr / 0x1000 % 512 }

  function PageOffset(vaddr: Word): nat { vaddr % 4096 }

  /** The 36-bit page number of an address: bits 12 to 47. */
  function PageOf(vaddr: Word): nat { vaddr / 4096 % PAGE_COUNT }

  /** The flags a caller may pass: the defined bits 0 to 11 without the page-size bit. */
  predicate FlagsOk(flags: nat) { flags < 4096 && !PageSize(flags) }

  /** The word `PSE_PTR(p) | PSE_PRESENT | flags`. */
  function MakeEntry(p: nat, flags: nat): Word
    requires flags < 4096
  {
    PsePtr(p) + flags / 2 * 2 + 1
  }

  lemma MulAtLeast(d: nat, k: int)
    requires k >= 1
    ensures d * k >= d
  {
  }

  lemma Distribute(d: int, a: int, b: int)
    ensures d * (a - b) == d * a - d * b
  {
  }

  /** Division with remainder is unique. */
  lemma SameQuotient(d: nat, q: int, r: nat, q': int, r': nat)
    requires d * q + r == d * q' + r' && r < d && r' < d
    ensures q == q'
  {
    if q < q' {
      Distribute(d, q', q);
      MulAtLeast(d, q' - q);
    } else if q' < q {
      Distribute(d, q, q');
      MulAtLeast(d, q - q');
    }
  }

  lemma QuotientIs(x: nat, d: nat, q: nat, r: nat)
    requires x == d * q + r && r < d
    ensures x / d == q && x % d == r
  {
    SameQuotient(d, q, r, x / d, x % d);
  }

  lemma HalveDivision(x: nat, p: nat)
    requires p > 0
    ensures x % (2 * p) == 2 * (x / 2 % p) + x % 2 && x / (2 * p) == x / 2 / p
  {
    var h := x / 2;
    var q, r := h / p, h % p;
    assert h == p * q + r;
    assert 2 * (p * q) == (2 * p) * q;
    QuotientIs(x, 2 * p, q, 2 * r + x % 2);
  }

  lemma PointerField(e: nat, q: nat, g: nat)
    requires e == 4096 * q + g && g < 4096 && q < FRAME_LIMIT
    ensures PsePtr(e) == 4096 * q && e % 4096 == g && Present(e) == Present(g)
  {
    QuotientIs(e, 4096, q, g);
    QuotientIs(e, 0x10_0000_0000_0000, 0, e);
  }

  lemma FlagFields(e: nat, q: nat, g: nat)
    requires e == 4096 * q + g && g < 4096
    ensures Writeable(e) == Writeable(g) && UserMode(e) == UserMode(g) && PageSize(e) == PageSize(g)
  {
    FlagField(e, 2, 1024 * q, g);
    FlagField(e, 4, 512 * q, g);
    FlagField(e, 128, 16 * q, g);
  }

  lemma FlagField(e: nat, d: nat, q: nat, g: nat)
    requires d > 0 && e == d * (2 * q) + g
    ensures e / d % 2 == g / d % 2
  {
    var h := g / d;
    assert g == d * h + g % d;
    Distribute(d, 2 * q, -h);
    QuotientIs(e, d, 2 * q + h, g % d);
    QuotientIs(2 * q + h, 2, q + h / 2, h % 2);
  }

  /** Setting the present bit changes no other flag. */
  lemma SetPresent(f: nat)
    ensures var g := f / 2 * 2 + 1;
      Present(g) && Writeable(g) == Writeable(f) && UserMode(g) == UserMode(f) && PageSize(g) == PageSize(f)
  {
    var h := f / 2;
    var g := h * 2 + 1;
    QuotientIs(g, 2, h, 1);
    HalveDivision(f, 2);
    HalveDivision(g, 2);
    HalveDivision(f, 64);
    HalveDivision(g, 64);
  }

  /** Reading the fields of a freshly made entry gives back the pointer and the flags. */
  lemma EntryFields(p: nat, flags: nat)
    requires flags < 4096
    ensures var e := MakeEntry(p, flags);
      && Present(e) && PsePtr(e) == PsePtr(p)
      && Writeable(e) == Writeable(flags) && UserMode(e) == UserMode(flags) && PageSize(e) == PageSize(flags)
      && e % 4096 == flags / 2 * 2 + 1
  {
    var q, g := p % 0x10_0000_0000_0000 / 4096, flags / 2 * 2 + 1;
    var e := MakeEntry(p, flags);
    PointerField(e, q, g);
    FlagFields(e, q, g);
    SetPresent(flags);
  }

  /** The four table indices, joined, are the page number: `Up(v, k)` drops k index groups. */
  function Up(v: nat, level: nat): nat {
    match level
    case 0 => v
    case 1 => v / 0x200
    case 2 => v / 0x4_0000
    case 3 => v / 0x800_0000
    case _ => v / 0x10_0000_0000
  }

  lemma UpStep(v: nat, level: nat)
    requires level <= 3
    ensures Up(v, level) / 512 == Up(v, level + 1)
  {
  }

  lemma IndicesJoin(vaddr: Word)
    ensures var v := PageOf(vaddr);
      && Pml4Index(vaddr) == Up(v, 3)
      && Up(v, 3) * 512 + PdptIndex(vaddr) == Up(v, 2)
      && Up(v, 2) * 512 + PdtIndex(vaddr) == Up(v, 1)
      && Up(v, 1) * 512 + PtIndex(vaddr) == v
      && Up(v, 4) == 0
  {
    var a := vaddr / 4096;
    var b := a / 512;
    var c := b / 512;
    var d := c / 512;
    var t := d / 512;
    QuotientIs(vaddr, 0x20_0000, b, vaddr - 0x20_0000 * b);
    QuotientIs(vaddr, 0x4000_0000, c, vaddr - 0x4000_0000 * c);
    QuotientIs(vaddr, 0x80_0000_0000, d, vaddr - 0x80_0000_0000 * d);
    var v := a - PAGE_COUNT * t;
    QuotientIs(a, PAGE_COUNT, t, v);
    QuotientIs(v, 0x200, b - 0x800_0000 * t, a % 512);
    QuotientIs(v, 0x4_0000, c - 0x4_0000 * t, v - 0x4_0000 * (c - 0x4_0000 * t));
    QuotientIs(v, 0x800_0000, d - 0x200 * t, v - 0x800_0000 * (d - 0x200 * t));
    QuotientIs(v, PAGE_COUNT, 0, v);
  }
}

/** The C operators `&`, `|` and `>>` on numbers, bit by bit, and what the macros of
    structures.h are in those terms. */
module Bitwise {
  import opened Structures

  function And(x: nat, y: nat): nat {
    if x == 0 || y == 0 then 0 else
    2 * And(x / 2, y / 2) + (if x % 2 == 1 && y % 2 == 1 then 1 else 0)
  }

  function Or(x: nat, y: nat): nat {
    if x == 0 then y else if y == 0 then x
    else 2 * Or(x / 2, y / 2) + (if x % 2 == 1 || y % 2 == 1 then 1 else 0)
  }

  function Shr(x: nat, k: nat): nat {
    if k == 0 then x else Shr(x / 2, k - 1)
  }

  function Shl(x: nat, k: nat): nat {
    if k == 0 then x else 2 * Shl(x, k - 1)
  }

  function Pow2(k: nat): nat {
    if k == 0 then 1 else 2 * Pow2(k - 1)
  }

  lemma Pow2Positive(k: nat)
    ensures Pow2(k) > 0
  {
  }

  lemma AndOdd(x: nat, y: nat)
    ensures And(x, 2 * y + 1) == 2 * And(x / 2, y) + x % 2
  {
    var z := 2 * y + 1;
    assert z / 2 == y && z % 2 == 1;
  }

  /** The low k bits of x, bit by bit. */
  function Low(x: nat, k: nat): nat {
    if k == 0 then 0 else 2 * Low(x / 2, k - 1) + x % 2
  }

  lemma {:induction false} LowIsMod(x: nat, k: nat)
    ensures Pow2(k) > 0 && Low(x, k) == x % Pow2(k)
  {
    Pow2Positive(k);
    if k > 0 {
      Pow2Positive(k - 1);
      LowIsMod(x / 2, k - 1);
      HalveDivision(x, Pow2(k - 1));
    }
  }

  lemma {:induction false} AndOnes(x: nat, k: nat)
    ensures Pow2(k) > 0 && And(x, Pow2(k) - 1) == Low(x, k)
  {
    Pow2Positive(k);
    if k > 0 {
      Pow2Positive(k - 1);
      AndOnes(x / 2, k - 1);
      AndOdd(x, Pow2(k - 1) - 1);
    }
  }

  /** `x & (2^k - 1)` keeps the low k bits. */
  lemma AndLowBits(x: nat, k: nat)
    ensures Pow2(k) > 0 && And(x, Pow2(k) - 1) == x % Pow2(k)
  {
    AndOnes(x, k);
    LowIsMod(x, k);
  }

  lemma AndDouble(x: nat, y: nat)
    ensures And(x, 2 * y) == 2 * And(x / 2, y)
  {
    var z := 2 * y;
    assert z / 2 == y && z % 2 == 0;
  }

  /** `x & (m << k) == ((x >> k) & m) << k`. */
  lemma {:induction false} AndShifted(x: nat, m: nat, k: nat)
    ensures And(x, Shl(m, k)) == Shl(And(Shr(x, k), m), k)
  {
    if k > 0 {
      AndShifted(x / 2, m, k - 1);
      AndDouble(x, Shl(m, k - 1));
    }
  }

  /** `x >> k` is division by 2^k. */
  lemma {:induction false} ShrDivides(x: nat, k: nat)
    ensures Pow2(k) > 0 && Shr(x, k) == x / Pow2(k)
  {
    Pow2Positive(k);
    if k > 0 {
      Pow2Positive(k - 1);
      ShrDivides(x / 2, k - 1);
      HalveDivision(x, Pow2(k - 1));
    }
  }

  lemma OrDouble(y: nat, g: nat)
    ensures Or(2 * y, g) == 2 * Or(y, g / 2) + g % 2
  {
    var z := 2 * y;
    assert z / 2 == y && z % 2 == 0;
  }

  /** `(x << k) | g` puts g below x when g has only k bits. */
  lemma {:induction false} OrDisjoint(x: nat, g: nat, k: nat)
    requires g < Pow2(k)
    ensures Or(Shl(x, k), g) == Shl(x, k) + g
  {
    if k > 0 {
      OrDisjoint(x, g / 2, k - 1);
      OrDouble(Shl(x, k - 1), g);
    }
  }

  lemma Shl12(x: nat)
    ensures Shl(x, 11) == 2048 * x && Shl(x, 12) == 4096 * x
  {
    assert Shl(x, 1) == 2 * x;
    assert Shl(x, 2) == 2 * Shl(x, 1);
    assert Shl(x, 4) == 4 * Shl(x, 2);
    assert Shl(x, 6) == 4 * Shl(x, 4);
    assert Shl(x, 8) == 4 * Shl(x, 6);
    assert Shl(x, 10) == 4 * Shl(x, 8);
  }

  /** `((q << 12) | 1) | f`, the shape of every entry the code writes. */
  lemma OrThree(q: nat, f: nat)
    requires f < 4096
    ensures Or(Or(4096 * q, 1), f) == 4096 * q + f / 2 * 2 + 1
  {
    Pow2Values();
    Shl12(q);
    OrDisjoint(q, 1, 12);
    var e := 4096 * q + 1;
    assert e / 2 == 2048 * q;
    assert Pow2(12) == 2 * Pow2(11);
    OrDisjoint(q, f / 2, 11);
    assert f > 0 ==> Or(e, f) == 2 * Or(e / 2, f / 2) + 1;
  }

  /** `PSE_PTR` is `& 0x000ffffffffff000`. */
  lemma PsePtrMasks(e: nat)
    ensures PsePtr(e) == And(e, 0x000f_ffff_ffff_f000)
  {
    Pow2Values();
    AndShifted(e, Pow2(40) - 1, 12);
    AndLowBits(Shr(e, 12), 40);
    ShrDivides(e, 12);
    Shl12(Pow2(40) - 1);
    var a := e / 4096;
    Shl12(a % FRAME_LIMIT);
    QuotientIs(e, 0x10_0000_0000_0000, a / FRAME_LIMIT, 4096 * (a % FRAME_LIMIT) + e % 4096);
    QuotientIs(4096 * (a % FRAME_LIMIT) + e % 4096, 4096, a % FRAME_LIMIT, e % 4096);
  }

  lemma Pow2Values()
    ensures Pow2(9) == 0x200 && Pow2(12) == 0x1000 && Pow2(21) == 0x20_0000 && Pow2(30) == 0x4000_0000
    ensures Pow2(39) == 0x80_0000_0000 && Pow2(40) == 0x100_0000_0000
  {
    assert Pow2(9) == 0x200;
    assert Pow2(12) == 8 * Pow2(9);
    assert Pow2(15) == 8 * Pow2(12);
    assert Pow2(18) == 8 * Pow2(15);
    assert Pow2(21) == 8 * Pow2(18);
    assert Pow2(24) == 8 * Pow2(21);
    assert Pow2(27) == 8 * Pow2(24);
    assert Pow2(30) == 8 * Pow2(27);
    assert Pow2(33) == 8 * Pow2(30);
    assert Pow2(36) == 8 * Pow2(33);
    assert Pow2(39) == 8 * Pow2(36);
  }

  /** The `EXTRACT_*` macros: shift right, then mask with 0x1ff or 0xfff. */
  lemma ExtractMacros(vaddr: Word)
    ensures Pml4Index(vaddr) == And(Shr(vaddr, 39), 0x1ff)
    ensures PdptIndex(vaddr) == And(Shr(vaddr, 30), 0x1ff)
    ensures PdtIndex(vaddr) == And(Shr(vaddr, 21), 0x1ff)
    ensures PtIndex(vaddr) == And(Shr(vaddr, 12), 0x1ff)
    ensures PageOffset(vaddr) == And(vaddr, 0xfff)
  {
    Pow2Values();
    forall k | k in {12, 21, 30, 39}
      ensures And(Shr(vaddr, k), 0x1ff) == vaddr / Pow2(k) % 512
    {
      AndLowBits(Shr(vaddr, k), 9);
      ShrDivides(vaddr, k);
    }
    AndLowBits(vaddr, 12);
  }

  /** A table or leaf entry is `PSE_PTR(p) | PSE_PRESENT | flags`, and presence is `e & PSE_PRESENT`. */
  lemma EntryIsOr(p: nat, flags: nat)
    requires flags < 4096
    ensures MakeEntry(p, flags) == Or(Or(PsePtr(p), 1), flags)
  {
    OrThree(p % 0x10_0000_0000_0000 / 4096, flags);
  }

  /** For an `unsigned int` of flags, every entry made with them leads to the frame it was made for
      exactly when they lie in the low 12 bits. */
  lemma FlagsKeepPointer(flags: nat)
    requires flags < 0x1_0000_0000
    ensures (forall p: nat :: PsePtr(Or(Or(PsePtr(p), 1), flags)) == PsePtr(p)) <==> flags < 4096
  {
    if flags < 4096 {
      forall p: nat ensures PsePtr(Or(Or(PsePtr(p), 1), flags)) == PsePtr(p) {
        EntryIsOr(p, flags);
        EntryFields(p, flags);
      }
    } else {
      var p: nat := 0;
      OrOne(flags);
      assert PsePtr(p) == 0 && Or(PsePtr(p), 1) == 1;
      var e := Or(Or(PsePtr(p), 1), flags);
      PointerField(e, e / 4096, e % 4096);
      assert PsePtr(Or(Or(PsePtr(p), 1), flags)) != PsePtr(p);
    }
  }

  /** The rights and the page-size bit are PSE_WRITEABLE (1 << 1), PSE_USER_MODE (1 << 2) and
      PSE_PAGE_SIZE (1 << 7). */
  lemma FlagsAreAnd(e: nat)
    ensures Writeable(e) <==> And(e, 0x2) != 0
    ensures UserMode(e) <==> And(e, 0x4) != 0
    ensures PageSize(e) <==> And(e, 0x80) != 0
  {
    OneBit(e, 1);
    OneBit(e, 2);
    OneBit(e, 7);
    assert Pow2(1) == 2 && Pow2(2) == 4 && Pow2(3) == 8 && Pow2(7) == 16 * Pow2(3);
  }

  lemma OneBit(e: nat, k: nat)
    ensures Pow2(k) > 0 && (And(e, Pow2(k)) != 0 <==> e / Pow2(k) % 2 == 1)
  {
    AndShifted(e, 1, k);
    AndLowBits(Shr(e, k), 1);
    ShrDivides(e, k);
    ShlPow2(1, k);
    ShlPow2(And(Shr(e, k), 1), k);
  }

  lemma {:induction false} ShlPow2(x: nat, k: nat)
    ensures Shl(x, k) == x * Pow2(k)
    ensures x <= 1 ==> (Shl(x, k) == 0 <==> x == 0)
  {
    if k > 0 {
      ShlPow2(x, k - 1);
    }
  }

  lemma OrOne(f: nat)
    ensures f <= Or(1, f) <= f + 1
  {
  }

  lemma PresentIsAnd(e: nat)
    ensures Present(e) <==> And(e, 1) != 0
  {
    AndLowBits(e, 1);
  }
}
