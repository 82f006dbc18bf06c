// The drive as a tree of packages, dies, planes and blocks, and the routing of
// events down the digits of their address (ssd_die.cpp, ssd_package.cpp,
// ssd_ssd.cpp). The flat row of blocks is what the translation layers reason about.
module Drive {
  import opened Arithmetic
  import opened Geometry
  import opened Flash

  ghost function Flatten(rows: seq<seq<Block>>): seq<Block> {
    if |rows| == 0 then [] else Flatten(rows[..|rows| - 1]) + rows[|rows| - 1]
  }

  lemma {:induction false} FlattenLength(rows: seq<seq<Block>>, width: nat)
    requires forall k :: 0 <= k < |rows| ==> |rows[k]| == width
    ensures |Flatten(rows)| == |rows| * width
  {
    if |rows| > 0 {
      FlattenLength(rows[..|rows| - 1], width);
    }
  }

  lemma {:induction false} FlattenIndex(rows: seq<seq<Block>>, width: nat, i: nat, j: nat)
    requires forall k :: 0 <= k < |rows| ==> |rows[k]| == width
    requires i < |rows| && j < width
    ensures |Flatten(rows)| == |rows| * width
    ensures i * width + j < |rows| * width && Flatten(rows)[i * width + j] == rows[i][j]
  {
    FlattenLength(rows, width);
    IndexBound(i, |rows|, j, width);
    var front := rows[..|rows| - 1];
    FlattenLength(front, width);
    if i < |rows| - 1 {
      FlattenIndex(front, width, i, j);
    }
  }

  // Where child `i` starts when each child holds `width` blocks.
  function ChildStart(base: nat, width: nat, size: nat, i: nat): nat {
    base + width * size * i
  }

  // `width` blocks per child, in address order from `base` and pairwise apart.
  ghost predicate Tiled(rows: seq<seq<Block>>, width: nat, size: nat, base: nat) {
    if |rows| == 0 then true
    else
      var front, row := rows[..|rows| - 1], rows[|rows| - 1];
      && Tiled(front, width, size, base)
      && |row| == width && BlockRow(row, size, ChildStart(base, width, size, |front|))
      && forall j, k :: 0 <= j < |Flatten(front)| && 0 <= k < |row| ==>
        Flatten(front)[j] != row[k] && Flatten(front)[j].data != row[k].data
  }

  lemma TiledGrow(rows: seq<seq<Block>>, row: seq<Block>, width: nat, size: nat, base: nat)
    requires Tiled(rows, width, size, base) && |row| == width
    requires BlockRow(row, size, ChildStart(base, width, size, |rows|))
    requires forall j, k :: 0 <= j < |Flatten(rows)| && 0 <= k < |row| ==>
        Flatten(rows)[j] != row[k] && Flatten(rows)[j].data != row[k].data
    ensures Tiled(rows + [row], width, size, base)
    ensures Flatten(rows + [row]) == Flatten(rows) + row
  {
    assert (rows + [row])[..|rows|] == rows;
  }

  lemma {:induction false} TiledIsRow(rows: seq<seq<Block>>, width: nat, size: nat, base: nat)
    requires Tiled(rows, width, size, base)
    ensures forall k :: 0 <= k < |rows| ==> |rows[k]| == width
    ensures |Flatten(rows)| == |rows| * width
    ensures BlockRow(Flatten(rows), size, base)
  {
    if |rows| > 0 {
      var front, row: seq<Block> := rows[..|rows| - 1], rows[|rows| - 1];
      TiledIsRow(front, width, size, base);
      var a: seq<Block> := Flatten(front);
      assert Flatten(rows) == a + row;
      hide Flatten, Tiled;
      forall k | 0 <= k < |a + row|
        ensures (a + row)[k].size == size && (a + row)[k].physicalAddress == base + k * size
      {
        if k >= |a| {
          RowOffset(k, |front|, width, size);
        }
      }
    }
  }

  ghost function Footprint(blocks: seq<Block>): set<object> {
    (set k | 0 <= k < |blocks| :: blocks[k] as object) + (set k | 0 <= k < |blocks| :: blocks[k].data as object)
  }

  ghost function PlaneRows(planes: seq<Plane>): seq<seq<Block>> {
    seq(|planes|, i requires 0 <= i < |planes| => planes[i].blocks)
  }

  method BuildPlanes(g: Geometry, base: nat) returns (planes: seq<Plane>)
    requires g.Positive()
    ensures |planes| == g.dieSize && Tiled(PlaneRows(planes), g.planeSize, g.blockSize, base)
    ensures forall i :: 0 <= i < |planes| ==> |planes[i].blocks| == g.planeSize
    ensures var flat := Flatten(PlaneRows(planes));
            forall k :: 0 <= k < |flat| ==> fresh(flat[k]) && fresh(flat[k].data) && BlankBlock(flat[k])
  {
    planes := [];
    ghost var flat: seq<Block> := [];
    hide BlankBlock, Geometry.PackageBlocks, Geometry.DieBlocks, Apart, ChildStart;
    for i := 0 to g.dieSize
      invariant |planes| == i && flat == Flatten(PlaneRows(planes))
      invariant forall k :: 0 <= k < i ==> |planes[k].blocks| == g.planeSize
      invariant Tiled(PlaneRows(planes), g.planeSize, g.blockSize, base)
      invariant forall k :: 0 <= k < |flat| ==> fresh(flat[k]) && fresh(flat[k].data) && BlankBlock(flat[k])
    {
      var child := new Plane(g, ChildStart(base, g.planeSize, g.blockSize, i));
      TiledGrow(PlaneRows(planes), child.blocks, g.planeSize, g.blockSize, base);
      assert PlaneRows(planes + [child]) == PlaneRows(planes) + [child.blocks];
      planes, flat := planes + [child], flat + child.blocks;
    }
  }

  class Die {
    const planes: seq<Plane>
    ghost const blocks: seq<Block>

    ghost predicate Wired(g: Geometry) {
      && |planes| == g.dieSize && (forall i :: 0 <= i < |planes| ==> |planes[i].blocks| == g.planeSize)
      && blocks == Flatten(PlaneRows(planes))
    }

    constructor (g: Geometry, base: nat)
      requires g.Positive()
      ensures Wired(g) && |blocks| == g.DieBlocks() && BlockRow(blocks, g.blockSize, base)
      ensures forall k :: 0 <= k < |blocks| ==> fresh(blocks[k]) && fresh(blocks[k].data) && BlankBlock(blocks[k])
    {
      var children := BuildPlanes(g, base);
      planes := children;
      blocks := Flatten(PlaneRows(children));
      TiledIsRow(PlaneRows(children), g.planeSize, g.blockSize, base);
    }

    function BlockAt(g: Geometry, d: Digits): Block
      requires Wired(g) && d.InRange(g)
    {
      planes[d.plane].blocks[d.block]
    }

    lemma Routes(g: Geometry, d: Digits)
      requires Wired(g) && d.InRange(g)
      ensures |blocks| == g.DieBlocks() && IndexInDie(g, d) < |blocks|
      ensures BlockAt(g, d) == blocks[IndexInDie(g, d)]
    {
      FlattenIndex(PlaneRows(planes), g.planeSize, d.plane, d.block);
    }
  }

  ghost function DieRows(dies: seq<Die>): seq<seq<Block>> {
    seq(|dies|, i requires 0 <= i < |dies| => dies[i].blocks)
  }

  method BuildDies(g: Geometry, base: nat) returns (dies: seq<Die>)
    requires g.Positive()
    ensures |dies| == g.packageSize && Tiled(DieRows(dies), g.DieBlocks(), g.blockSize, base)
    ensures forall i :: 0 <= i < |dies| ==> dies[i].Wired(g)
    ensures var flat := Flatten(DieRows(dies));
            forall k :: 0 <= k < |flat| ==> fresh(flat[k]) && fresh(flat[k].data) && BlankBlock(flat[k])
  {
    dies := [];
    ghost var flat: seq<Block> := [];
    hide BlankBlock, Geometry.PackageBlocks, Geometry.DieBlocks, Apart, ChildStart;
    for i := 0 to g.packageSize
      invariant |dies| == i && flat == Flatten(DieRows(dies))
      invariant forall k :: 0 <= k < i ==> dies[k].Wired(g)
      invariant Tiled(DieRows(dies), g.DieBlocks(), g.blockSize, base)
      invariant forall k :: 0 <= k < |flat| ==> fresh(flat[k]) && fresh(flat[k].data) && BlankBlock(flat[k])
    {
      var child := new Die(g, ChildStart(base, g.DieBlocks(), g.blockSize, i));
      TiledGrow(DieRows(dies), child.blocks, g.DieBlocks(), g.blockSize, base);
      assert DieRows(dies + [child]) == DieRows(dies) + [child.blocks];
      dies, flat := dies + [child], flat + child.blocks;
    }
  }

  class Package {
    const dies: seq<Die>
    ghost const blocks: seq<Block>

    ghost predicate Wired(g: Geometry) {
      && |dies| == g.packageSize && (forall i :: 0 <= i < |dies| ==> dies[i].Wired(g))
      && blocks == Flatten(DieRows(dies))
    }

    constructor (g: Geometry, base: nat)
      requires g.Positive()
      ensures Wired(g) && |blocks| == g.PackageBlocks() && BlockRow(blocks, g.blockSize, base)
      ensures forall k :: 0 <= k < |blocks| ==> fresh(blocks[k]) && fresh(blocks[k].data) && BlankBlock(blocks[k])
    {
      var children := BuildDies(g, base);
      dies := children;
      blocks := Flatten(DieRows(children));
      TiledIsRow(DieRows(children), g.DieBlocks(), g.blockSize, base);
    }

    function BlockAt(g: Geometry, d: Digits): Block
      requires Wired(g) && d.InRange(g)
    {
      dies[d.die].BlockAt(g, d)
    }

    lemma Routes(g: Geometry, d: Digits)
      requires Wired(g) && d.InRange(g)
      ensures |blocks| == g.PackageBlocks() && IndexInPackage(g, d) < |blocks|
      ensures BlockAt(g, d) == blocks[IndexInPackage(g, d)]
    {
      forall i | 0 <= i < |dies| ensures |DieRows(dies)[i]| == g.DieBlocks() {
        FlattenLength(PlaneRows(dies[i].planes), g.planeSize);
      }
      dies[d.die].Routes(g, d);
      FlattenIndex(DieRows(dies), g.DieBlocks(), d.die, IndexInDie(g, d));
    }
  }

  ghost function PackageRows(packages: seq<Package>): seq<seq<Block>> {
    seq(|packages|, i requires 0 <= i < |packages| => packages[i].blocks)
  }

  method BuildPackages(g: Geometry) returns (packages: seq<Package>)
    requires g.Positive()
    ensures |packages| == g.ssdSize && Tiled(PackageRows(packages), g.PackageBlocks(), g.blockSize, 0)
    ensures forall i :: 0 <= i < |packages| ==> packages[i].Wired(g)
    ensures var flat := Flatten(PackageRows(packages));
            forall k :: 0 <= k < |flat| ==> fresh(flat[k]) && fresh(flat[k].data) && BlankBlock(flat[k])
  {
    packages := [];
    ghost var flat: seq<Block> := [];
    hide BlankBlock, Geometry.PackageBlocks, Geometry.DieBlocks, Apart, ChildStart;
    for i := 0 to g.ssdSize
      invariant |packages| == i && flat == Flatten(PackageRows(packages))
      invariant forall k :: 0 <= k < i ==> packages[k].Wired(g)
      invariant Tiled(PackageRows(packages), g.PackageBlocks(), g.blockSize, 0)
      invariant forall k :: 0 <= k < |flat| ==> fresh(flat[k]) && fresh(flat[k].data) && BlankBlock(flat[k])
    {
      var child := new Package(g, ChildStart(0, g.PackageBlocks(), g.blockSize, i));
      TiledGrow(PackageRows(packages), child.blocks, g.PackageBlocks(), g.blockSize, 0);
      assert PackageRows(packages + [child]) == PackageRows(packages) + [child.blocks];
      packages, flat := packages + [child], flat + child.blocks;
    }
  }

  class Ssd {
    const g: Geometry
    const packages: seq<Package>

    // The value of every block, by block number.
    ghost var view: seq<BlockValue>
    ghost const Repr: set<object>

    ghost function Blocks(): seq<Block> {
      Flatten(PackageRows(packages))
    }

    ghost predicate Wired() {
      && g.Positive() && |packages| == g.ssdSize
      && (forall i :: 0 <= i < |packages| ==> packages[i].Wired(g))
      && |Blocks()| == g.Blocks() && BlockRow(Blocks(), g.blockSize, 0)
      && (forall k :: 0 <= k < |Blocks()| ==> Blocks()[k] in Repr && Blocks()[k].data in Repr)
    }

    ghost predicate Valid()
      reads this, Repr
    {
      && Wired() && this !in Repr && |view| == g.Blocks()
      && forall k :: 0 <= k < |view| ==> Blocks()[k].Valid() && Blocks()[k].Value() == view[k]
    }

    constructor (g: Geometry)
      requires g.Positive()
      ensures this.g == g && Valid() && fresh(Repr)
      ensures view == seq(g.Blocks(), _ => FreshBlock(g.blockSize))
    {
      this.g := g;
      var children := BuildPackages(g);
      packages := children;
      TiledIsRow(PackageRows(children), g.PackageBlocks(), g.blockSize, 0);
      view := seq(g.Blocks(), _ => FreshBlock(g.blockSize));
      Repr := Footprint(Flatten(PackageRows(children)));
    }

    function BlockAt(d: Digits): Block
      requires Wired() && d.InRange(g)
    {
      packages[d.package].BlockAt(g, d)
    }

    lemma RoutesByIndex(d: Digits)
      requires Wired() && d.InRange(g)
      ensures BlockIndex(g, d) < |Blocks()| && BlockAt(d) == Blocks()[BlockIndex(g, d)]
    {
      hide Geometry.PackageBlocks, Geometry.DieBlocks, Flatten, Die.Wired;
      forall i | 0 <= i < |packages| ensures |PackageRows(packages)[i]| == g.PackageBlocks() {
        packages[i].Routes(g, d);
      }
      packages[d.package].Routes(g, d);
      FlattenIndex(PackageRows(packages), g.PackageBlocks(), d.package, IndexInPackage(g, d));
    }

    // Following the digits of a linear address down the tree reaches the block
    // whose physical address is that address rounded down to a block boundary.
    lemma Routes(address: nat)
      requires Wired() && address < g.Capacity()
      ensures var d := Decode(g, address);
              && d.InRange(g) && BlockOf(g, address) < |Blocks()|
              && BlockAt(d) == Blocks()[BlockOf(g, address)]
              && BlockAt(d).physicalAddress == BlockStart(g, address)
    {
      DecodeRecomposes(g, address);
      DecodeRoundTrip(g, address);
      RoutesByIndex(Decode(g, address));
      DivMod(address, g.blockSize);
    }

    // The digits of page `at`, and the block they lead to.
    method Locate(at: PageAddr) returns (b: Block, page: nat)
      requires Valid() && at.block < |view| && at.page < g.blockSize
      ensures b == Blocks()[at.block] && page == at.page
    {
      IndexBound(at.block, g.Blocks(), at.page, g.blockSize);
      DivModUnique(at.block, g.blockSize, at.page);
      var a := new Address.Linear(g, at.block * g.blockSize + at.page, PAGE);
      Routes(a.realAddress);
      b := BlockAt(Digits(a.package, a.die, a.plane, a.block, a.page));
      page := a.page;
    }

    ghost predicate InDrive(at: PageAddr)
      reads this
    {
      at.block < |view| && at.page < g.blockSize
    }

    method GetState(at: PageAddr) returns (s: PageState)
      requires Valid() && InDrive(at)
      ensures at.page < |view[at.block].pages| && s == view[at.block].pages[at.page].state
    {
      var b, p := Locate(at);
      s := b.data[p].state;
    }

    method GetNumValid(block: nat) returns (n: nat)
      requires Valid() && block < |view|
      ensures n == view[block].valid
    {
      var b, p := Locate(PageAddr(block, 0));
      n := b.pagesValid;
    }

    method GetNumInvalid(block: nat) returns (n: nat)
      requires Valid() && block < |view|
      ensures n == view[block].invalid
      ensures n == 0 <==> forall i :: 0 <= i < |view[block].pages| ==> view[block].pages[i].state != INVALID
    {
      var b, p := Locate(PageAddr(block, 0));
      n := b.pagesInvalid;
      WellFormedExtremes(view[block], b.size);
    }

    method GetBlockState(block: nat) returns (s: BlockState)
      requires Valid() && block < |view|
      ensures s == view[block].state
      ensures s == INACTIVE <==> forall i :: 0 <= i < |view[block].pages| ==> view[block].pages[i].state == INVALID
    {
      var b, p := Locate(PageAddr(block, 0));
      s := b.state;
      WellFormedExtremes(view[block], b.size);
    }

    // READ events
    method Read(at: PageAddr) returns (bytes: Bytes)
      requires Valid() && InDrive(at)
      ensures at.page < |view[at.block].pages| && bytes == view[at.block].pages[at.page].data
    {
      var b, p := Locate(at);
      bytes := b.Read(p);
    }

    method Write(at: PageAddr, bytes: Bytes)
      requires Valid() && InDrive(at)
      requires at.page < |view[at.block].pages| && view[at.block].pages[at.page].state == EMPTY
      modifies this, Repr
      ensures Valid() && view == old(view)[at.block := old(view)[at.block].Program(at.page, bytes)]
    {
      var b, p := Locate(at);
      b.Write(p, bytes);
      view := view[at.block := view[at.block].Program(at.page, bytes)];
    }

    method Replace(at: PageAddr)
      requires Valid() && InDrive(at)
      requires at.page < |view[at.block].pages|
      modifies this, Repr
      ensures Valid() && view == old(view)[at.block := old(view)[at.block].Invalidate(at.page)]
    {
      hide Geometry.Blocks, BlockValue.WellFormed, BlockValue.Invalidate, Tiled;
      var b, p := Locate(at);
      b.InvalidatePage(p);
      view := view[at.block := view[at.block].Invalidate(at.page)];
    }

    method Erase(block: nat)
      requires Valid() && block < |view|
      modifies this, Repr
      ensures Valid() && view == old(view)[block := old(view)[block].Erase()]
    {
      hide Geometry.Blocks, BlockValue.WellFormed, BlockValue.Erase, Tiled;
      var b, p := Locate(PageAddr(block, 0));
      b.Erase();
      view := view[block := view[block].Erase()];
    }

    // What the controller does with a WRITE event: write, then replace.
    method IssueWrite(at: PageAddr, bytes: Bytes, replaced: Option<PageAddr>)
      requires Valid() && InDrive(at)
      requires at.page < |view[at.block].pages| && view[at.block].pages[at.page].state == EMPTY
      requires replaced.Some? ==> InDrive(replaced.value) && replaced.value.page < |view[replaced.value.block].pages|
      modifies this, Repr
      ensures Valid() && view == AfterWrite(old(view), at, bytes, replaced)
    {
      Write(at, bytes);
      if replaced.Some? {
        Replace(replaced.value);
      }
    }

    lemma NoInvalidPages(block: nat)
      requires Valid() && block < |view| && view[block].invalid == 0
      ensures forall i :: 0 <= i < |view[block].pages| ==> view[block].pages[i].state != INVALID
    {
      WellFormedExtremes(view[block], Blocks()[block].size);
    }
  }
}
