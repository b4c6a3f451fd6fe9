/** Device-tree address translation (common/fdt_wrappers.c) against composition of bus maps.

    A node's address is local to its bus.  The `ranges` property of each bus on the way up maps it to the
    parent bus (section 2.3.8 of the Devicetree Specification), until the root, where addresses are those of
    the CPU. */
module AddressTranslation {
  import opened Bits
  import opened Common

  const ILLEGAL_ADDR: nat := 0xFFFF_FFFF_FFFF_FFFF

  type cell = x: int | 0 <= x < 0x1_0000_0000

  /** A node of the flattened tree; parents come before their children, the root is node 0.  The property holds
      cells, already in CPU byte order; `following` is the cell behind it in the blob. */
  datatype Node = Node(parent: nat, addressCells: nat, sizeCells: nat, ranges: Option<seq<cell>>, following: cell)

  type Tree = seq<Node>

  /** The bus has entries to search. */
  predicate HasEntries(n: Node) { n.ranges.Some? && n.ranges.value != [] }

  /** The cells of one entry of the `ranges` property of a bus. */
  function EntryCells(t: Tree, bus: nat): nat
    requires bus < |t| && t[bus].parent < |t|
  {
    t[bus].addressCells + t[t[bus].parent].addressCells + t[bus].sizeCells
  }

  /** Parents first, a root without `ranges`, and for each bus with entries: addresses of at least one cell on both
      sides and room for an entry (the assertions of the search). */
  ghost predicate WellFormed(t: Tree) {
    && t != [] && t[0].ranges == None
    && (forall i :: 0 < i < |t| ==> t[i].parent < i)
    && (forall i :: 0 < i < |t| && HasEntries(t[i]) ==>
          && t[i].addressCells >= 1 && t[t[i].parent].addressCells >= 1
          && |t[i].ranges.value| >= EntryCells(t, i))
  }

  // ----- The code -----

  /** fdt_read_prop_cells: the first cell, or the first two.  The first is read even of a number without cells. */
  function ReadCells(cells: seq<cell>, n: nat): (v: nat)
    requires |cells| >= if n > 1 then 2 else 1
    ensures v < U64
  {
    if n > 1 then cells[0] * U32 + cells[1] else cells[0]
  }

  /** One entry of a `ranges` property. */
  datatype Window = Window(local: nat, parent: nat, size: nat)

  /** The entry at the start of the cells, with at least one cell behind it. */
  function ReadWindow(cells: seq<cell>, ac: nat, pc: nat, sc: nat): (w: Window)
    requires ac >= 1 && pc >= 1 && |cells| > ac + pc + sc
    ensures InRange(w)
  {
    Window(ReadCells(cells, ac), ReadCells(cells[ac..], pc), ReadCells(cells[ac + pc..], sc))
  }

  predicate InRange(w: Window) { w.local < U64 && w.parent < U64 && w.size < U64 }

  /** fdtw_xlat_hit, in unsigned 64-bit arithmetic. */
  function Hit(w: Window, addr: nat): Option<nat> {
    if addr < w.local || addr >= (w.local + w.size) % U64 then None else Some(Moved(w, addr))
  }

  /** The address in the parent space, modulo 2^64. */
  function Moved(w: Window, addr: nat): nat
    requires w.local <= addr
  {
    (w.parent + (addr - w.local)) % U64
  }

  /** The entries of a property; cells left over at the end are ignored. */
  function Windows(cells: seq<cell>, following: cell, ac: nat, pc: nat, sc: nat): (ws: seq<Window>)
    requires ac >= 1 && pc >= 1
    ensures forall k :: 0 <= k < |ws| ==> InRange(ws[k])
    decreases |cells|
  {
    if |cells| < ac + pc + sc then []
    else [ReadWindow(cells + [following], ac, pc, sc)] + Windows(cells[ac + pc + sc..], following, ac, pc, sc)
  }

  /** The translation by the first entry that hits. */
  function FirstHit(ws: seq<Window>, addr: nat): nat {
    if ws == [] then ILLEGAL_ADDR
    else match Hit(ws[0], addr)
         case Some(a) => a
         case None => FirstHit(ws[1..], addr)
  }

  /** fdtw_search_all_xlat_entries: step through the property, entry by entry. */
  method SearchEntries(cells: seq<cell>, following: cell, ac: nat, pc: nat, sc: nat, addr: nat) returns (r: nat)
    requires ac >= 1 && pc >= 1
    ensures r == FirstHit(Windows(cells, following, ac, pc, sc), addr)
  {
    var ncells := ac + pc + sc;
    var entry, i, n := cells, 0, |cells| / ncells;
    while i < n
      invariant 0 <= i <= n && |entry| / ncells == n - i
      invariant FirstHit(Windows(cells, following, ac, pc, sc), addr) ==
                FirstHit(Windows(entry, following, ac, pc, sc), addr)
    {
      DropEntry(|entry|, ncells);
      var window := ReadWindow(entry + [following], ac, pc, sc);
      var hit := Hit(window, addr);
      ghost var rest := Windows(entry[ncells..], following, ac, pc, sc);
      assert ([window] + rest)[1..] == rest;
      if hit.Some? { return hit.value; }
      entry := entry[ncells..];
      i := i + 1;
    }
    DropEntry(|entry|, ncells);
    return ILLEGAL_ADDR;
  }

  lemma DropEntry(len: nat, n: nat)
    requires n > 0
    ensures len >= n ==> (len - n) / n == len / n - 1
    ensures len < n <==> len / n == 0
  {
    if len >= n { DivDrop(len, n); } else { DivSmall(len, n); }
  }

  /** fdtw_translate_address for a node whose bus is `bus`. */
  function Translate(t: Tree, bus: nat, addr: nat): nat
    requires WellFormed(t) && bus < |t|
    decreases bus
  {
    match t[bus].ranges
    case None => if bus == 0 then addr else ILLEGAL_ADDR
    case Some(cells) =>
      if cells == [] then Translate(t, t[bus].parent, addr)
      else
        var a := FirstHit(BusWindows(t, bus), addr);
        if a == ILLEGAL_ADDR then ILLEGAL_ADDR else Translate(t, t[bus].parent, a)
  }

  function BusWindows(t: Tree, bus: nat): (ws: seq<Window>)
    requires WellFormed(t) && 0 < bus < |t| && HasEntries(t[bus])
    ensures forall k :: 0 <= k < |ws| ==> InRange(ws[k])
  {
    Windows(t[bus].ranges.value, t[bus].following, t[bus].addressCells, t[t[bus].parent].addressCells, t[bus].sizeCells)
  }

  // ----- The specification -----

  /** The address lies in the window, as a set of numbers. */
  predicate Inside(w: Window, addr: nat) { w.local <= addr < w.local + w.size }

  /** The first window the address lies in. */
  function FirstInside(ws: seq<Window>, addr: nat): (k: nat)
    ensures k <= |ws|
    ensures k < |ws| ==> Inside(ws[k], addr)
    ensures forall j :: 0 <= j < k ==> !Inside(ws[j], addr)
  {
    if ws == [] then 0 else if Inside(ws[0], addr) then 0 else 1 + FirstInside(ws[1..], addr)
  }

  /** What a bus does to an address: nothing with an empty `ranges`, no way up without one, otherwise the offset
      into the first window that holds the address is kept. */
  function BusMap(t: Tree, bus: nat, addr: nat): Option<nat>
    requires WellFormed(t) && 0 < bus < |t|
  {
    if t[bus].ranges.None? then None
    else if t[bus].ranges.value == [] then Some(addr)
    else
      var ws := BusWindows(t, bus);
      var k := FirstInside(ws, addr);
      if k == |ws| then None else Some(ws[k].parent + (addr - ws[k].local))
  }

  /** The buses from `bus` up to the root, the root left out. */
  function BusesUp(t: Tree, bus: nat): (path: seq<nat>)
    requires WellFormed(t) && bus < |t|
    ensures forall i :: 0 <= i < |path| ==> 0 < path[i] < |t|
    decreases bus
  {
    if bus == 0 then [] else [bus] + BusesUp(t, t[bus].parent)
  }

  ghost predicate IsPath(t: Tree, path: seq<nat>) {
    forall i :: 0 <= i < |path| ==> 0 < path[i] < |t|
  }

  /** The maps of the buses on the path, one after the other. */
  function Through(t: Tree, path: seq<nat>, addr: nat): Option<nat>
    requires WellFormed(t) && IsPath(t, path)
    decreases |path|
  {
    if path == [] then Some(addr)
    else match BusMap(t, path[0], addr)
         case None => None
         case Some(a) => Through(t, path[1..], a)
  }

  // ----- One bus -----

  /** The end of the window does not wrap around the 64-bit space. */
  predicate Bounded(w: Window) { w.local + w.size < U64 }

  /** The wrapping range check of the source is membership in the window, for all addresses, exactly if the end
      of the window does not wrap. */
  lemma HitExactly(w: Window)
    requires InRange(w)
    ensures (forall addr: nat :: addr < U64 ==> (Hit(w, addr).Some? <==> Inside(w, addr))) <==> Bounded(w)
  {
    if !Bounded(w) {
      assert Inside(w, w.local) && Hit(w, w.local).None?;
    }
  }

  /** A window whose end wraps is never hit. */
  lemma HitNeedsBound(w: Window, addr: nat)
    requires InRange(w)
    ensures Hit(w, addr) == if Bounded(w) && Inside(w, addr) then Some(Moved(w, addr)) else None
  {
  }

  /** The windows whose end does not wrap. */
  function Usable(ws: seq<Window>): (us: seq<Window>)
    ensures forall k :: 0 <= k < |us| ==> us[k] in ws && Bounded(us[k])
  {
    if ws == [] then [] else (if Bounded(ws[0]) then [ws[0]] else []) + Usable(ws[1..])
  }

  /** The search of the source, for all windows and addresses: it takes the first window that holds the address
      among those whose end does not wrap, and keeps the offset modulo 2^64. */
  lemma {:induction false} SearchIsFirstInside(ws: seq<Window>, addr: nat)
    requires forall k :: 0 <= k < |ws| ==> InRange(ws[k])
    ensures var us := Usable(ws);
            FirstHit(ws, addr) == FirstMoved(us, addr)
  {
    if ws != [] {
      HitNeedsBound(ws[0], addr);
      SearchIsFirstInside(ws[1..], addr);
      if Bounded(ws[0]) {
        FirstMovedStep(Usable(ws), addr);
        assert Usable(ws)[0] == ws[0] && Usable(ws)[1..] == Usable(ws[1..]);
      } else {
        assert Usable(ws) == Usable(ws[1..]);
      }
    }
  }

  /** The address moved by the first window it lies in. */
  function FirstMoved(ws: seq<Window>, addr: nat): nat {
    var k := FirstInside(ws, addr);
    if k == |ws| then ILLEGAL_ADDR else Moved(ws[k], addr)
  }

  lemma FirstMovedStep(ws: seq<Window>, addr: nat)
    requires ws != []
    ensures FirstMoved(ws, addr) == if Inside(ws[0], addr) then Moved(ws[0], addr) else FirstMoved(ws[1..], addr)
  {
  }

  /** The first window that holds the address can be used for it: its end does not wrap, and the address in the
      parent space lies below the illegal one. */
  ghost predicate FitsAt(ws: seq<Window>, addr: nat) {
    var k := FirstInside(ws, addr);
    k < |ws| ==> Bounded(ws[k]) && ws[k].parent + (addr - ws[k].local) < ILLEGAL_ADDR
  }

  /** Then the search finds it, or nothing if there is none. */
  lemma {:induction false} SearchAgrees(ws: seq<Window>, addr: nat)
    requires (forall k :: 0 <= k < |ws| ==> InRange(ws[k])) && FitsAt(ws, addr)
    ensures var k := FirstInside(ws, addr);
            FirstHit(ws, addr) == if k == |ws| then ILLEGAL_ADDR else ws[k].parent + (addr - ws[k].local)
    ensures FirstInside(ws, addr) < |ws| <==> FirstHit(ws, addr) < ILLEGAL_ADDR
  {
    if ws != [] {
      HitNeedsBound(ws[0], addr);
      if Inside(ws[0], addr) {
        DivSmall(ws[0].parent + (addr - ws[0].local), U64);
      } else {
        SearchAgrees(ws[1..], addr);
      }
    }
  }

  // ----- The way up -----

  /** Every window the address takes on its way up can be used for it. */
  ghost predicate RouteFits(t: Tree, path: seq<nat>, addr: nat)
    requires WellFormed(t) && IsPath(t, path)
    decreases |path|
  {
    path != [] ==>
      && (HasEntries(t[path[0]]) ==> FitsAt(BusWindows(t, path[0]), addr))
      && (BusMap(t, path[0], addr).Some? ==> RouteFits(t, path[1..], BusMap(t, path[0], addr).value))
  }

  /** One step of the translation is the map of the bus. */
  lemma BusStep(t: Tree, bus: nat, addr: nat)
    requires WellFormed(t) && 0 < bus < |t| && addr < U64
    requires HasEntries(t[bus]) ==> FitsAt(BusWindows(t, bus), addr)
    ensures match BusMap(t, bus, addr)
            case None => Translate(t, bus, addr) == ILLEGAL_ADDR
            case Some(a) =>
              && Translate(t, bus, addr) == Translate(t, t[bus].parent, a)
              && a < U64 && (addr < ILLEGAL_ADDR ==> a < ILLEGAL_ADDR)
  {
    if HasEntries(t[bus]) { SearchAgrees(BusWindows(t, bus), addr); }
  }

  /** Translation is the composition of the bus maps up to the root, and it is the illegal address exactly if
      some bus on the way has no map or no window for the address. */
  lemma {:induction false} TranslateIsComposition(t: Tree, bus: nat, addr: nat)
    requires WellFormed(t) && bus < |t| && addr < U64 && RouteFits(t, BusesUp(t, bus), addr)
    ensures var r := Through(t, BusesUp(t, bus), addr);
            && Translate(t, bus, addr) == (if r.Some? then r.value else ILLEGAL_ADDR)
            && (addr < ILLEGAL_ADDR ==> (Translate(t, bus, addr) == ILLEGAL_ADDR <==> r.None?))
    decreases bus
  {
    if bus > 0 {
      var up := BusesUp(t, t[bus].parent);
      assert BusesUp(t, bus)[0] == bus && BusesUp(t, bus)[1..] == up;
      BusStep(t, bus, addr);
      if BusMap(t, bus, addr).Some? { TranslateIsComposition(t, t[bus].parent, BusMap(t, bus, addr).value); }
    }
  }

  /** Neither side of any window of a bus on the path reaches the top of the 64-bit space. */
  ghost predicate AllFit(t: Tree, path: seq<nat>)
    requires WellFormed(t) && IsPath(t, path)
  {
    forall i, k :: 0 <= i < |path| && HasEntries(t[path[i]]) && 0 <= k < |BusWindows(t, path[i])| ==>
      var w := BusWindows(t, path[i])[k];
      w.local + w.size < U64 && w.parent + w.size < U64
  }

  /** That is enough for all addresses at once. */
  lemma {:induction false} WindowsFit(t: Tree, path: seq<nat>, addr: nat)
    requires WellFormed(t) && IsPath(t, path) && AllFit(t, path)
    ensures RouteFits(t, path, addr)
    decreases |path|
  {
    if path != [] && BusMap(t, path[0], addr).Some? {
      var rest := path[1..];
      assert forall i :: 0 <= i < |rest| ==> rest[i] == path[i + 1];
      WindowsFit(t, rest, BusMap(t, path[0], addr).value);
    }
  }

  // ----- Offsets -----

  /** Two addresses take the same windows all the way up. */
  ghost predicate SameRoute(t: Tree, path: seq<nat>, x: nat, y: nat)
    requires WellFormed(t) && IsPath(t, path)
    decreases |path|
  {
    path != [] ==>
      && BusMap(t, path[0], x).Some? && BusMap(t, path[0], y).Some?
      && (HasEntries(t[path[0]]) ==> FirstInside(BusWindows(t, path[0]), x) == FirstInside(BusWindows(t, path[0]), y))
      && SameRoute(t, path[1..], BusMap(t, path[0], x).value, BusMap(t, path[0], y).value)
  }

  /** The maps keep their distance, */
  lemma {:induction false} DistanceKept(t: Tree, path: seq<nat>, x: nat, y: nat)
    requires WellFormed(t) && IsPath(t, path) && SameRoute(t, path, x, y)
    ensures Through(t, path, x).Some? && Through(t, path, y).Some?
    ensures Through(t, path, y).value - Through(t, path, x).value == y - x
    decreases |path|
  {
    if path != [] { DistanceKept(t, path[1..], BusMap(t, path[0], x).value, BusMap(t, path[0], y).value); }
  }

  /** and so does translation. */
  lemma OffsetsKept(t: Tree, bus: nat, x: nat, y: nat)
    requires WellFormed(t) && bus < |t| && x < U64 && y < U64 && SameRoute(t, BusesUp(t, bus), x, y)
    requires RouteFits(t, BusesUp(t, bus), x) && RouteFits(t, BusesUp(t, bus), y)
    ensures Translate(t, bus, y) - Translate(t, bus, x) == y - x
  {
    DistanceKept(t, BusesUp(t, bus), x, y);
    TranslateIsComposition(t, bus, x);
    TranslateIsComposition(t, bus, y);
  }

  // ----- Numbers without cells, or of more than two -----

  /** The number a property value stands for. */
  function CellValue(cells: seq<cell>): nat {
    if cells == [] then 0 else CellValue(cells[..|cells| - 1]) * U32 + cells[|cells| - 1]
  }

  /** The code reads the value of the first `n` cells, whatever is in the blob. */
  ghost predicate ReadsExactly(n: nat) {
    forall cells: seq<cell> :: |cells| > n ==> ReadCells(cells, n) == CellValue(cells[..n])
  }

  /** Reading is exact for numbers of one or two cells only: of three or more the two most significant cells are
      read, and of none the cell that follows. */
  lemma ReadCellsExactly(n: nat)
    ensures ReadsExactly(n) <==> 1 <= n <= 2
  {
    if 1 <= n <= 2 {
      forall cells: seq<cell> | |cells| > n
        ensures ReadCells(cells, n) == CellValue(cells[..n])
      {
        ReadOneOrTwo(cells, n);
      }
    } else {
      var zeros: seq<cell> := seq(n, _ => 0);
      var cells: seq<cell> := if n == 0 then [1] else zeros[..n - 1] + [1, 0];
      if n > 2 {
        assert cells[..n] == zeros[..n - 1] + [1];
        assert cells[..n][..n - 1] == zeros[..n - 1];
      }
      assert |cells| > n && ReadCells(cells, n) != CellValue(cells[..n]);
    }
  }

  // ----- The layout of the property -----

  /** The entry that starts at cell `at` of the property. */
  ghost predicate EntryAt(w: Window, blob: seq<cell>, at: nat, ac: nat, pc: nat, sc: nat)
    requires at + ac + pc + sc <= |blob|
  {
    && w.local == CellValue(blob[at..at + ac])
    && w.parent == CellValue(blob[at + ac..at + ac + pc])
    && w.size == CellValue(blob[at + ac + pc..at + ac + pc + sc])
  }

  lemma ReadOneOrTwo(cells: seq<cell>, n: nat)
    requires 1 <= n <= 2 && |cells| >= n
    ensures ReadCells(cells, n) == CellValue(cells[..n])
  {
    var s := cells[..n];
    assert CellValue(s[..1]) == CellValue(s[..1][..0]) * U32 + s[0];
    if n == 1 { assert s[..1] == s; } else { assert s[..|s| - 1] == s[..1]; }
  }

  /** A number of one or two cells read at cell `at` of the property. */
  lemma ReadAt(cells: seq<cell>, following: cell, at: nat, from: nat, n: nat)
    requires 1 <= n <= 2 && at + from + n <= |cells|
    ensures ReadCells((cells[at..] + [following])[from..], n) == CellValue(cells[at + from..at + from + n])
  {
    var tail := (cells[at..] + [following])[from..];
    ReadOneOrTwo(tail, n);
    assert tail[..n] == cells[at + from..at + from + n];
  }

  /** For numbers of one or two cells an entry is the local address, then the address on the parent bus, then the
      size. */
  lemma WindowLayout(cells: seq<cell>, following: cell, at: nat, ac: nat, pc: nat, sc: nat)
    requires 1 <= ac <= 2 && 1 <= pc <= 2 && 1 <= sc <= 2 && at + ac + pc + sc <= |cells|
    ensures EntryAt(ReadWindow(cells[at..] + [following], ac, pc, sc), cells, at, ac, pc, sc)
  {
    var blob := cells[at..] + [following];
    assert blob[0..] == blob;
    ReadAt(cells, following, at, 0, ac);
    ReadAt(cells, following, at, ac, pc);
    ReadAt(cells, following, at, ac + pc, sc);
  }

  /** How many entries of `n` cells fit, and where entry `k` starts, counted off one by one. */
  ghost function EntryCount(len: nat, n: nat): nat
    requires n > 0
  {
    if len < n then 0 else 1 + EntryCount(len - n, n)
  }

  ghost function EntryStart(k: nat, n: nat): nat {
    if k == 0 then 0 else n + EntryStart(k - 1, n)
  }

  lemma {:induction false} CountIsQuotient(len: nat, n: nat)
    requires n > 0
    ensures EntryCount(len, n) == len / n
    decreases len
  {
    DropEntry(len, n);
    if len >= n { CountIsQuotient(len - n, n); }
  }

  lemma {:induction false} StartIsProduct(k: nat, n: nat)
    ensures EntryStart(k, n) == k * n
  {
    if k > 0 { StartIsProduct(k - 1, n); }
  }

  lemma {:induction false} EntriesCounted(cells: seq<cell>, following: cell, ac: nat, pc: nat, sc: nat)
    requires ac >= 1 && pc >= 1
    ensures |Windows(cells, following, ac, pc, sc)| == EntryCount(|cells|, ac + pc + sc)
    decreases |cells|
  {
    var n := ac + pc + sc;
    if |cells| >= n { EntriesCounted(cells[n..], following, ac, pc, sc); }
  }

  lemma {:induction false} EntryFits(k: nat, len: nat, n: nat)
    requires n > 0 && k < EntryCount(len, n)
    ensures EntryStart(k, n) + n <= len
    decreases k
  {
    if k > 0 { EntryFits(k - 1, len - n, n); }
  }

  lemma DropTwice(cells: seq<cell>, n: nat, at: nat)
    requires n + at <= |cells|
    ensures cells[n..][at..] == cells[n + at..]
  {
  }

  lemma RestOfEntries(cells: seq<cell>, following: cell, ac: nat, pc: nat, sc: nat)
    requires ac >= 1 && pc >= 1 && |cells| >= ac + pc + sc
    ensures |Windows(cells, following, ac, pc, sc)| > 0
    ensures Windows(cells, following, ac, pc, sc)[1..] == Windows(cells[ac + pc + sc..], following, ac, pc, sc)
  {
  }

  lemma RestOfRest(ws: seq<Window>, rest: seq<Window>, suffix: seq<Window>, k: nat)
    requires ws != [] && ws[1..] == rest && 0 < k <= |rest| + 1 && rest[k - 1..] == suffix
    ensures ws[k..] == suffix
  {
  }

  /** `suffix` is what the entries from number `k` on are. */
  ghost predicate FromEntry(cells: seq<cell>, following: cell, ac: nat, pc: nat, sc: nat, k: nat, suffix: seq<Window>)
    requires ac >= 1 && pc >= 1
  {
    var ws := Windows(cells, following, ac, pc, sc);
    k <= |ws| && ws[k..] == suffix
  }

  lemma {:induction false} EntriesInOrder(cells: seq<cell>, following: cell, ac: nat, pc: nat, sc: nat, k: nat, at: nat)
    requires ac >= 1 && pc >= 1 && at == EntryStart(k, ac + pc + sc) && at <= |cells|
    ensures FromEntry(cells, following, ac, pc, sc, k, Windows(cells[at..], following, ac, pc, sc))
    decreases k
  {
    var n := ac + pc + sc;
    if k == 0 {
      assert cells[at..] == cells;
    } else {
      var before := at - n;
      DropTwice(cells, n, before);
      RestOfEntries(cells, following, ac, pc, sc);
      EntriesInOrder(cells[n..], following, ac, pc, sc, k - 1, before);
      RestOfRest(Windows(cells, following, ac, pc, sc), Windows(cells[n..], following, ac, pc, sc),
                 Windows(cells[at..], following, ac, pc, sc), k);
    }
  }

  /** The property holds as many entries as fit, one behind the other. */
  lemma WindowsLayout(cells: seq<cell>, following: cell, ac: nat, pc: nat, sc: nat, k: nat)
    requires 1 <= ac <= 2 && 1 <= pc <= 2 && 1 <= sc <= 2
    ensures |Windows(cells, following, ac, pc, sc)| == |cells| / (ac + pc + sc)
    ensures k < |Windows(cells, following, ac, pc, sc)| ==>
              && k * (ac + pc + sc) + ac + pc + sc <= |cells|
              && EntryAt(Windows(cells, following, ac, pc, sc)[k], cells, k * (ac + pc + sc), ac, pc, sc)
  {
    var n := ac + pc + sc;
    CountIsQuotient(|cells|, n);
    StartIsProduct(k, n);
    EntriesCounted(cells, following, ac, pc, sc);
    if k < EntryCount(|cells|, n) {
      EntryFits(k, |cells|, n);
      EntriesInOrder(cells, following, ac, pc, sc, k, EntryStart(k, n));
      assert Windows(cells, following, ac, pc, sc)[k..][0] == Windows(cells, following, ac, pc, sc)[k];
      WindowLayout(cells, following, EntryStart(k, n), ac, pc, sc);
    }
  }

  /** The entries of a bus: an address of the bus, with its own number of cells, an address of the parent bus, with the
      number of cells of that one, and a size. */
  lemma BusLayout(t: Tree, bus: nat, k: nat)
    requires WellFormed(t) && 0 < bus < |t| && HasEntries(t[bus])
    requires t[bus].addressCells <= 2 && t[t[bus].parent].addressCells <= 2 && 1 <= t[bus].sizeCells <= 2
    ensures |BusWindows(t, bus)| == |t[bus].ranges.value| / EntryCells(t, bus)
    ensures k < |BusWindows(t, bus)| ==>
              && k * EntryCells(t, bus) + EntryCells(t, bus) <= |t[bus].ranges.value|
              && EntryAt(BusWindows(t, bus)[k], t[bus].ranges.value, k * EntryCells(t, bus),
                         t[bus].addressCells, t[t[bus].parent].addressCells, t[bus].sizeCells)
  {
    WindowsLayout(t[bus].ranges.value, t[bus].following,
                  t[bus].addressCells, t[t[bus].parent].addressCells, t[bus].sizeCells, k);
  }
}
