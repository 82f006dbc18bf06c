// The mixed-radix physical address of ssd_address.cpp.
module Geometry {
  import opened Arithmetic

  // SSD_SIZE, PACKAGE_SIZE, DIE_SIZE, PLANE_SIZE and BLOCK_SIZE.
  datatype Geometry = Geometry(ssdSize: nat, packageSize: nat, dieSize: nat, planeSize: nat, blockSize: nat) {
    predicate Positive() {
      ssdSize > 0 && packageSize > 0 && dieSize > 0 && planeSize > 0 && blockSize > 0
    }

    // How many blocks one package, one die and the whole drive hold.
    function DieBlocks(): (n: nat)
      ensures Positive() ==> n > 0
    {
      dieSize * planeSize
    }

    function PackageBlocks(): (n: nat)
      ensures Positive() ==> n > 0
    {
      packageSize * DieBlocks()
    }

    function Blocks(): (n: nat)
      ensures Positive() ==> n > 0
    {
      ssdSize * PackageBlocks()
    }

    function Capacity(): (n: nat)
      ensures Positive() ==> n > 0
    {
      Blocks() * blockSize
    }
  }

  datatype Digits = Digits(package: nat, die: nat, plane: nat, block: nat, page: nat) {
    predicate InRange(g: Geometry) {
      package < g.ssdSize && die < g.packageSize && plane < g.dieSize && block < g.planeSize && page < g.blockSize
    }
  }

  // The digits set_linear_address extracts, least significant first.
  function Decode(g: Geometry, address: nat): Digits
    requires g.Positive()
  {
    var a1 := address / g.blockSize;
    var a2 := a1 / g.planeSize;
    var a3 := a2 / g.dieSize;
    var a4 := a3 / g.packageSize;
    Digits(a4 % g.ssdSize, a3 % g.packageSize, a2 % g.dieSize, a1 % g.planeSize, address % g.blockSize)
  }

  // Position of the addressed block when all blocks of the drive are numbered
  // package by package, die by die and plane by plane.
  function BlockIndex(g: Geometry, d: Digits): nat {
    d.package * g.PackageBlocks() + IndexInPackage(g, d)
  }

  function IndexInPackage(g: Geometry, d: Digits): nat {
    d.die * g.DieBlocks() + IndexInDie(g, d)
  }

  function IndexInDie(g: Geometry, d: Digits): nat {
    d.plane * g.planeSize + d.block
  }

  function Encode(g: Geometry, d: Digits): nat {
    BlockIndex(g, d) * g.blockSize + d.page
  }

  lemma BlockIndexBound(g: Geometry, d: Digits)
    requires g.Positive() && d.InRange(g)
    ensures IndexInDie(g, d) < g.DieBlocks()
    ensures IndexInPackage(g, d) < g.PackageBlocks()
    ensures BlockIndex(g, d) < g.Blocks()
    ensures Encode(g, d) < g.Capacity()
  {
    IndexBound(d.plane, g.dieSize, d.block, g.planeSize);
    IndexBound(d.die, g.packageSize, IndexInDie(g, d), g.DieBlocks());
    IndexBound(d.package, g.ssdSize, IndexInPackage(g, d), g.PackageBlocks());
    IndexBound(BlockIndex(g, d), g.Blocks(), d.page, g.blockSize);
  }

  lemma QuotientOfQuotient(x: nat, m: nat, n: nat)
    requires m > 0 && n > 0
    ensures m * n > 0 && x / (n * m) == x / m / n
    ensures x % (n * m) == (x / m % n) * m + x % m
  {
    var q := x / m;
    var hi, lo := q / n, (q % n) * m + x % m;
    MulPositive(m, n);
    DivMod(x, m);
    DivMod(q, n);
    IndexBound(q % n, n, x % m, m);
    MulDistributes(hi * n, q % n, m);
    MulAssociative(hi, n, m);
    assert x == hi * (n * m) + lo;
    DivModUnique(hi, n * m, lo);
  }

  // The block an address lies in, and the address where that block starts.
  function BlockOf(g: Geometry, address: nat): nat
    requires g.blockSize > 0
  {
    address / g.blockSize
  }

  function BlockStart(g: Geometry, address: nat): int
    requires g.blockSize > 0
  {
    address - address % g.blockSize
  }

  // Every linear address decodes to digits in range; the digits name block
  // address / BLOCK_SIZE exactly when the address is below capacity, and wrap
  // around the drive otherwise.
  lemma DecodeRecomposes(g: Geometry, address: nat)
    requires g.Positive()
    ensures Decode(g, address).InRange(g)
    ensures BlockIndex(g, Decode(g, address)) == address / g.blockSize % g.Blocks()
    ensures Encode(g, Decode(g, address)) == address % g.Capacity()
  {
    var a1 := address / g.blockSize;
    var a2 := a1 / g.planeSize;
    var a3 := a2 / g.dieSize;
    QuotientOfQuotient(a1, g.planeSize, g.dieSize);
    QuotientOfQuotient(a1, g.DieBlocks(), g.packageSize);
    QuotientOfQuotient(a1, g.PackageBlocks(), g.ssdSize);
    assert a1 / g.PackageBlocks() == a3 / g.packageSize;
    QuotientOfQuotient(address, g.blockSize, g.Blocks());
  }

  // Decoding is a bijection between the addresses below capacity and the
  // digits in range, and only there.
  lemma DecodeRoundTrip(g: Geometry, address: nat)
    requires g.Positive()
    ensures Encode(g, Decode(g, address)) == address <==> address < g.Capacity()
    ensures address < g.Capacity() ==> BlockIndex(g, Decode(g, address)) == address / g.blockSize
  {
    DecodeRecomposes(g, address);
    BlockIndexBound(g, Decode(g, address));
    if address < g.Capacity() {
      DivBound(address, g.Blocks(), g.blockSize);
      ModSmall(address, g.Capacity());
      ModSmall(address / g.blockSize, g.Blocks());
    }
  }

  lemma ModSmall(x: nat, m: nat)
    requires x < m
    ensures x % m == x
  {
    DivModUnique(0, m, x);
  }

  lemma EncodeRoundTrip(g: Geometry, d: Digits)
    requires g.Positive() && d.InRange(g)
    ensures Encode(g, d) < g.Capacity() && Decode(g, Encode(g, d)) == d
  {
    BlockIndexBound(g, d);
    DivModUnique(BlockIndex(g, d), g.blockSize, d.page);
    IndexDigits(g, d);
    hide BlockIndex, Geometry.Capacity;
  }

  // Dividing a block's number by the sizes of the levels gives its digits.
  lemma IndexDigits(g: Geometry, d: Digits)
    requires g.Positive() && d.InRange(g)
    ensures var i := BlockIndex(g, d);
            && i % g.planeSize == d.block && i / g.planeSize % g.dieSize == d.plane
            && i / g.planeSize / g.dieSize % g.packageSize == d.die
            && i / g.planeSize / g.dieSize / g.packageSize % g.ssdSize == d.package
  {
    var i := BlockIndex(g, d);
    PackageDigit(g, d);
    hide BlockIndex, IndexInPackage, IndexInDie;
    QuotientOfQuotient(i, g.planeSize, g.dieSize);
    QuotientOfQuotient(i, g.DieBlocks(), g.packageSize);
    ModSmall(d.package, g.ssdSize);
  }

  lemma PackageDigit(g: Geometry, d: Digits)
    requires g.Positive() && d.InRange(g)
    ensures var i := BlockIndex(g, d);
            && g.PackageBlocks() > 0 && g.DieBlocks() > 0 && i / g.PackageBlocks() == d.package
            && i / g.DieBlocks() % g.packageSize == d.die
            && i / g.planeSize % g.dieSize == d.plane && i % g.planeSize == d.block
  {
    BlockIndexBound(g, d);
    var i := BlockIndex(g, d);
    DivModUnique(d.package, g.PackageBlocks(), IndexInPackage(g, d));
    DivModUnique(d.die, g.DieBlocks(), IndexInDie(g, d));
    TelescopeDigit(d.die, g.packageSize, IndexInDie(g, d), g.DieBlocks(), i);
    TelescopeDigit(d.plane, g.dieSize, d.block, g.planeSize, i);
    hide BlockIndex;
  }

  // The low digits of i, read off i % (n * m), are what dividing i itself gives.
  lemma TelescopeDigit(hi: nat, n: nat, lo: nat, m: nat, i: nat)
    requires hi < n && lo < m
    requires i % (n * m) == hi * m + lo
    ensures i / m % n == hi && i % m == lo
  {
    QuotientOfQuotient(i, m, n);
    DivModUnique(i / m % n, m, i % m);
    DivModUnique(hi, m, lo);
  }

  datatype Level = NONE | PACKAGE | DIE | PLANE | BLOCK | PAGE {
    function Rank(): nat {
      match this
      case NONE => 0
      case PACKAGE => 1
      case DIE => 2
      case PLANE => 3
      case BLOCK => 4
      case PAGE => 5
    }
  }

  // Class Address: digits, the linear address they came from, and how many of
  // the digits mean anything.
  class Address {
    var package: nat
    var die: nat
    var plane: nat
    var block: nat
    var page: nat
    var realAddress: nat
    var valid: Level

    ghost function Value(): Digits
      reads this
    {
      Digits(package, die, plane, block, page)
    }

    constructor Linear(g: Geometry, address: nat, level: Level)
      requires g.Positive()
      ensures Value() == Decode(g, address) && realAddress == address && valid == level
    {
      valid := level;
      new;
      SetLinearAddress(g, address);
    }

    method SetLinearAddress(g: Geometry, linear: nat)
      requires g.Positive()
      modifies this
      ensures Value() == Decode(g, linear)
      ensures realAddress == linear && valid == old(valid)
    {
      var address := linear;
      realAddress := address;
      page := address % g.blockSize;
      address := address / g.blockSize;
      block := address % g.planeSize;
      address := address / g.planeSize;
      plane := address % g.dieSize;
      address := address / g.dieSize;
      die := address % g.packageSize;
      address := address / g.packageSize;
      package := address % g.ssdSize;
    }

    // operator+=
    method Advance(g: Geometry, i: nat)
      requires g.Positive()
      modifies this
      ensures Value() == Decode(g, old(realAddress) + i)
      ensures realAddress == old(realAddress) + i && valid == old(valid)
    {
      SetLinearAddress(g, realAddress + i);
    }

    // Plane::get_free_page: to the first unprogrammed page of the same block.
    method MoveToFreePage(g: Geometry, pagesValid: nat)
      requires g.Positive() && pagesValid < g.blockSize && Value() == Decode(g, realAddress)
      modifies this
      ensures Value() == old(Value()).(page := pagesValid) == Decode(g, realAddress) && valid == PAGE
      ensures realAddress / g.blockSize == old(realAddress) / g.blockSize
    {
      DivMod(realAddress, g.blockSize);
      DivModUnique(realAddress / g.blockSize, g.blockSize, pagesValid);
      page := pagesValid;
      valid := PAGE;
      SetLinearAddress(g, realAddress + page - realAddress % g.blockSize);
      SameBlockSameDigits(g, old(realAddress), realAddress);
    }

    // The level down to which two addresses agree, over the digits both declare meaningful.
    function Compare(other: Address): (agreed: Level)
      reads this, other
    {
      if !(package == other.package && valid.Rank() >= 1 && other.valid.Rank() >= 1) then NONE
      else if !(die == other.die && valid.Rank() >= 2 && other.valid.Rank() >= 2) then PACKAGE
      else if !(plane == other.plane && valid.Rank() >= 3 && other.valid.Rank() >= 3) then DIE
      else if !(block == other.block && valid.Rank() >= 4 && other.valid.Rank() >= 4) then PLANE
      else if !(page == other.page && valid.Rank() >= 5 && other.valid.Rank() >= 5) then BLOCK
      else PAGE
    }
  }

  // On addresses built from linear page numbers below capacity, compare says
  // PAGE exactly for equal numbers, and at least BLOCK exactly for pages of one block.
  lemma CompareDecides(g: Geometry, x: Address, y: Address)
    requires g.Positive()
    requires x.valid == PAGE && y.valid == PAGE
    requires x.realAddress < g.Capacity() && y.realAddress < g.Capacity()
    requires x.Value() == Decode(g, x.realAddress) && y.Value() == Decode(g, y.realAddress)
    ensures x.Compare(y) == PAGE <==> x.realAddress == y.realAddress
    ensures x.Compare(y).Rank() >= BLOCK.Rank() <==> x.realAddress / g.blockSize == y.realAddress / g.blockSize
  {
    DecodeRoundTrip(g, x.realAddress);
    DecodeRoundTrip(g, y.realAddress);
    if x.realAddress / g.blockSize == y.realAddress / g.blockSize {
      SameBlockSameDigits(g, x.realAddress, y.realAddress);
    }
  }

  // And at least the level of a plane, die or package exactly for pages of one.
  lemma CompareDecidesLevels(g: Geometry, x: Address, y: Address)
    requires g.Positive()
    requires x.valid == PAGE && y.valid == PAGE
    requires x.realAddress < g.Capacity() && y.realAddress < g.Capacity()
    requires x.Value() == Decode(g, x.realAddress) && y.Value() == Decode(g, y.realAddress)
    ensures x.Compare(y).Rank() >= PLANE.Rank() <==>
              BlockOf(g, x.realAddress) / g.planeSize == BlockOf(g, y.realAddress) / g.planeSize
    ensures x.Compare(y).Rank() >= DIE.Rank() <==>
              BlockOf(g, x.realAddress) / g.planeSize / g.dieSize == BlockOf(g, y.realAddress) / g.planeSize / g.dieSize
    ensures x.Compare(y).Rank() >= PACKAGE.Rank() <==>
              BlockOf(g, x.realAddress) / g.planeSize / g.dieSize / g.packageSize
              == BlockOf(g, y.realAddress) / g.planeSize / g.dieSize / g.packageSize
  {
    var a, b := BlockOf(g, x.realAddress) / g.planeSize, BlockOf(g, y.realAddress) / g.planeSize;
    PackageInRange(g, x.realAddress);
    PackageInRange(g, y.realAddress);
    SameQuotientAndRest(a, b, g.dieSize);
    SameQuotientAndRest(a / g.dieSize, b / g.dieSize, g.packageSize);
  }

  lemma SameQuotientAndRest(a: nat, b: nat, m: nat)
    requires m > 0
    ensures a == b <==> a / m == b / m && a % m == b % m
  {
    DivMod(a, m);
    DivMod(b, m);
  }

  lemma PackageInRange(g: Geometry, address: nat)
    requires g.Positive() && address < g.Capacity()
    ensures Decode(g, address).package == address / g.blockSize / g.planeSize / g.dieSize / g.packageSize
  {
    var i := address / g.blockSize;
    DivBound(address, g.Blocks(), g.blockSize);
    QuotientOfQuotient(i, g.planeSize, g.dieSize);
    QuotientOfQuotient(i, g.DieBlocks(), g.packageSize);
    DivBound(i, g.ssdSize, g.PackageBlocks());
    ModSmall(i / g.PackageBlocks(), g.ssdSize);
  }

  // Digits that an address does not declare count for nothing.
  lemma CompareUpToDeclared(x: Address, y: Address)
    ensures x.Compare(y).Rank() <= x.valid.Rank() && x.Compare(y).Rank() <= y.valid.Rank()
    ensures x.Compare(y) == y.Compare(x)
  {}

  lemma SameBlockSameDigits(g: Geometry, a: nat, b: nat)
    requires g.Positive() && a / g.blockSize == b / g.blockSize
    ensures Decode(g, a).(page := 0) == Decode(g, b).(page := 0)
  {}
}
