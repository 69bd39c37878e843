/** The tile table of the navigation mesh: slots on a free list or on the hash chain of their location,
    both threaded through the one `next` field, and salted references to the slots. */
module TileTable {
  import opened Options
  import opened Sequences
  import opened Chains
  import opened PolyRefs
  import opened Words
  import opened PowersOfTwo
  import opened RefWidths

  const NIL: int := -1

  datatype TileLoc = TileLoc(x: int, y: int, layer: int)
  datatype Status = Success | InvalidParam | AlreadyOccupied | OutOfMemory

  /** The bucket of a grid position; the table size is a power of two, so masking is taking the remainder. */
  function TileHash(x: int, y: int, lutSize: nat): (h: nat)
    requires lutSize >= 1
    ensures h < lutSize
  {
    ((0x8da6_b343 * x + 0xd816_3841 * y) % 0x1_0000_0000) % lutSize
  }

  /** A quarter of the tiles, rounded up to a power of two, but at least one bucket. */
  function LutSize(maxTiles: nat): (n: nat)
    ensures n >= 1
  {
    var size := ToNat(NextPow2(FromNat(maxTiles / 4)));
    if size == 0 then 1 else size
  }

  /** The salt of a tile being added: its slot's, or the one in the reference it had. */
  function SaltFor(w: Widths, lastRef: bv32, current: bv32): bv32
    requires Packed(w)
  {
    if lastRef == 0 then current else DecodeSalt(w, lastRef)
  }

  /** The salt after a removal: counted up within its field, skipping zero. */
  function NextSalt(w: Widths, salt: bv32): bv32
    requires Packed(w)
  {
    var s := And(salt + 1, Mask(w.salt));
    if s == 0 then 1 else s
  }

  /** A removal always changes the salt, and leaves it in range and non-zero. */
  lemma NextSaltDiffers(w: Widths, salt: bv32)
    requires Usable(w) && Below(salt, w.salt)
    ensures NextSalt(w, salt) != salt && NextSalt(w, salt) != 0 && Below(NextSalt(w, salt), w.salt)
  {
    hide And, Mask, Below;
    MaskedIncrement(salt, w.salt);
  }

  lemma MaskedIncrement(s: bv32, k: bv32)
    requires 10 <= k <= 31 && Below(s, k)
    ensures var t := And(s + 1, Mask(k)); t != s && Below(t, k) && Below(1, k) && (s == 1 ==> t != 0)
  {
    IncrementBits(s, k);
  }

  lemma IncrementBits(s: bv32, k: bv32)
    requires 2 <= k <= 31 && s < 1 << k
    ensures (s + 1) & ((1 << k) - 1) != s && (s + 1) & ((1 << k) - 1) < 1 << k && (1 as bv32) < 1 << k
    ensures s == 1 ==> (s + 1) & ((1 << k) - 1) != 0
  {
  }

  /** Every index of the table fits the tile field. */
  ghost predicate IndexesFit(maxTiles: nat, w: Widths)
    requires Packed(w)
  {
    forall i :: 0 <= i < maxTiles ==> Below(FromNat(i), w.tile)
  }

  lemma InitIndexesFit(maxTiles: nat, maxPolys: nat)
    requires 1 <= maxTiles <= MAX_INT && 1 <= maxPolys <= MAX_INT
    ensures var r := InitWidths(FromNat(maxTiles), FromNat(maxPolys));
            r.Ready? ==> Usable(r.widths) && IndexesFit(maxTiles, r.widths)
  {
    hide InitWidths, Below, FromNat;
    OneIndexFits(0, maxTiles, maxPolys);
    forall i | 0 <= i < maxTiles && InitWidths(FromNat(maxTiles), FromNat(maxPolys)).Ready?
      ensures Below(FromNat(i), InitWidths(FromNat(maxTiles), FromNat(maxPolys)).widths.tile)
    {
      OneIndexFits(i, maxTiles, maxPolys);
    }
  }

  lemma OneIndexFits(i: nat, maxTiles: nat, maxPolys: nat)
    requires i < maxTiles <= MAX_INT && 1 <= maxPolys <= MAX_INT
    ensures var r := InitWidths(FromNat(maxTiles), FromNat(maxPolys));
            r.Ready? ==> Usable(r.widths) && Below(FromNat(i), r.widths.tile)
  {
    hide InitWidths, Below, FromNat, Less, Countable, Packed, Usable;
    IntWord(maxTiles);
    IntWord(maxPolys);
    IntsAreSmall(maxTiles);
    WordLess(i, maxTiles);
    InitWidthsFit(FromNat(maxTiles), FromNat(maxPolys), FromNat(i), 0);
  }

  lemma IntWord(n: nat)
    requires 1 <= n <= MAX_INT
    ensures Countable(FromNat(n))
  {
    hide FromNat;
    IntsAreSmall(n);
    NotZero(n);
    WordOfInt(n);
  }

  /** A tile reference decodes to the slot's index and salt. */
  lemma TileRefDecodes(w: Widths, salt: bv32, i: nat, maxTiles: nat)
    requires Packed(w) && IndexesFit(maxTiles, w) && i < maxTiles <= MAX_INT && Below(salt, w.salt)
    ensures var ref := EncodePolyId(w, salt, FromNat(i), 0);
            ToNat(DecodeTile(w, ref)) == i && DecodeSalt(w, ref) == salt && (salt != 0 ==> ref != 0)
  {
    hide Below;
    assert Below(0, w.poly) by { ZeroBelow(w.poly); }
    DecodeEncode(w, salt, FromNat(i), 0);
    ToFrom(i);
    if salt != 0 && EncodePolyId(w, salt, FromNat(i), 0) == 0 {
      ZeroDecodes(w);
      assert false;
    }
  }

  lemma ZeroBelow(k: bv32)
    requires k <= 31
    ensures Below(0, k)
  {
  }

  lemma ZeroDecodes(w: Widths)
    requires Packed(w)
    ensures DecodeSalt(w, 0) == 0
  {
  }

  // ---- The table ----

  /** Slots and what they hold, as values. `owner` is a slot's bucket, or FREE. */
  ghost predicate Books(header: seq<Option<TileLoc>>, salt: seq<bv32>, owner: seq<int>, w: Widths, lutSize: nat)
    requires Packed(w) && lutSize >= 1
  {
    && |header| == |salt| == |owner|
    && (forall i :: 0 <= i < |header| ==> owner[i] != LOOSE && Below(salt[i], w.salt))
    && (forall i :: 0 <= i < |header| ==>
          match header[i] case None => owner[i] == FREE case Some(loc) => owner[i] == TileHash(loc.x, loc.y, lutSize))
    && (forall i, j :: 0 <= i < |header| && 0 <= j < |header| && header[i].Some? && header[i] == header[j] ==> i == j)
  }

  /** Threads all slots, from the last to the first, so that the list runs from first to last. */
  method ThreadSlots(next: array<int>) returns (nextFree: int)
    modifies next
    ensures nextFree == if next.Length > 0 then 0 else NIL
    ensures forall k :: 0 <= k < next.Length ==> next[k] == if k + 1 < next.Length then k + 1 else NIL
  {
    nextFree := NIL;
    var i := next.Length - 1;
    while i >= 0
      invariant -1 <= i < next.Length && nextFree == (if i + 1 < next.Length then i + 1 else NIL)
      invariant forall k :: i < k < next.Length ==> next[k] == if k + 1 < next.Length then k + 1 else NIL
    {
      next[i] := nextFree;
      nextFree := i;
      i := i - 1;
    }
  }

  ghost predicate Occupied(header: seq<Option<TileLoc>>, loc: TileLoc) {
    exists i :: 0 <= i < |header| && header[i] == Some(loc)
  }

  ghost predicate HasFree(header: seq<Option<TileLoc>>) {
    exists i :: 0 <= i < |header| && header[i] == None
  }

  /** No salt is zero, so no reference to slot 0 is zero either. */
  ghost predicate SaltsPositive(salt: seq<bv32>) {
    forall i :: 0 <= i < |salt| ==> salt[i] != 0
  }

  /** Bit widths and table of a new mesh; no mesh when the widths leave too few salt bits. */
  method Init(maxTiles: nat, maxPolys: nat) returns (result: InitResult, mesh: NavMesh?)
    requires 1 <= maxTiles <= MAX_INT && 1 <= maxPolys <= MAX_INT
    ensures result == InitWidths(FromNat(maxTiles), FromNat(maxPolys)) && (mesh != null <==> result.Ready?)
    ensures mesh != null ==> mesh.Valid() && mesh.maxTiles == maxTiles && mesh.widths == result.widths && mesh.Unused()
    ensures forall a: nat, b: nat :: LeastPower(maxTiles, a) && LeastPower(maxPolys, b) ==> WidthsFor(result, a, b)
  {
    hide InitWidths, FromNat, IndexesFit, Packed, LutSize, LeastPower, WidthsFor;
    WidthsInNumbers(maxTiles, maxPolys);
    InitIndexesFit(maxTiles, maxPolys);
    result := InitWidths(FromNat(maxTiles), FromNat(maxPolys));
    mesh := null;
    if result.Ready? {
      mesh := new NavMesh(maxTiles, result.widths);
    }
  }

  /** A new tile finds a slot: any free one, or the one its old reference names. */
  ghost predicate CanPlace(w: Widths, header: seq<Option<TileLoc>>, lastRef: bv32)
    requires Packed(w)
  {
    var i := ToNat(DecodeTile(w, lastRef));
    if lastRef == 0 then HasFree(header) else i < |header| && header[i] == None
  }

  /** The free list without one slot, without its first one if that is asked for. */
  ghost predicate TakenOff(before: seq<nat>, after: seq<nat>, slot: int, first: bool) {
    exists d :: 0 <= d < |before| && before[d] == slot && after == Without(before, d) && (first ==> d == 0)
  }

  /** One free slot, the old one if there was one, now holds the location, at the salt of the old reference. */
  ghost predicate Placed(w: Widths, header: seq<Option<TileLoc>>, salt: seq<bv32>, header': seq<Option<TileLoc>>,
                         salt': seq<bv32>,
                         loc: TileLoc, lastRef: bv32, tile: int)
    requires Packed(w) && |header| == |salt|
  {
    && 0 <= tile < |header| && header[tile] == None && (lastRef != 0 ==> tile == ToNat(DecodeTile(w, lastRef)))
    && header' == header[tile := Some(loc)] && salt' == salt[tile := SaltFor(w, lastRef, salt[tile])]
  }

  /** Adding a tile keeps the salts non-zero unless it restores a reference whose salt is zero. */
  lemma SaltsAfterAdd(w: Widths, header: seq<Option<TileLoc>>, salt: seq<bv32>, header': seq<Option<TileLoc>>,
                      salt': seq<bv32>,
                      loc: TileLoc, lastRef: bv32, tile: int)
    requires Packed(w) && |header| == |salt| && Placed(w, header, salt, header', salt', loc, lastRef, tile)
             && SaltsPositive(salt)
    ensures SaltsPositive(salt') <==> lastRef == 0 || DecodeSalt(w, lastRef) != 0
  {
    if SaltsPositive(salt') { assert salt'[tile] == SaltFor(w, lastRef, salt[tile]); }
  }

  /** A reference that names a slot of the table, at some salt: every reference ever handed out does. */
  ghost predicate NamesSlot(w: Widths, ref: bv32, maxTiles: nat)
    requires Packed(w)
  {
    exists s: bv32, i: nat :: i < maxTiles && Below(s, w.salt) && ref == EncodePolyId(w, s, FromNat(i), 0)
  }

  /** Whatever the table has gone through in between, a tile placed under an old reference has that very reference. */
  lemma RestoredRef(w: Widths, header: seq<Option<TileLoc>>, salt: seq<bv32>, header': seq<Option<TileLoc>>,
                    salt': seq<bv32>, loc: TileLoc, lastRef: bv32, tile: int)
    requires Packed(w) && |header| == |salt| <= MAX_INT && IndexesFit(|header|, w)
    requires Placed(w, header, salt, header', salt', loc, lastRef, tile)
    requires lastRef != 0 && NamesSlot(w, lastRef, |header|)
    ensures EncodePolyId(w, salt'[tile], FromNat(tile), 0) == lastRef
  {
    hide Below, FromNat, ToNat, IndexesFit, EncodePolyId, DecodeTile, DecodeSalt;
    var s: bv32, i: nat :| i < |header| && Below(s, w.salt) && lastRef == EncodePolyId(w, s, FromNat(i), 0);
    TileRefDecodes(w, s, i, |header|);
  }

  /** A tile that is new keeps its slot's salt. */
  lemma FreshSalt(w: Widths, header: seq<Option<TileLoc>>, salt: seq<bv32>, header': seq<Option<TileLoc>>,
                  salt': seq<bv32>, loc: TileLoc, lastRef: bv32, tile: int)
    requires Packed(w) && |header| == |salt| && Placed(w, header, salt, header', salt', loc, lastRef, tile)
    ensures lastRef == 0 ==> salt' == salt
  {
  }

  /** Every tile has such a reference. */
  lemma TileNamesSlot(header: seq<Option<TileLoc>>, salt: seq<bv32>, owner: seq<int>, w: Widths, lutSize: nat, i: nat)
    requires Packed(w) && lutSize >= 1 && Books(header, salt, owner, w, lutSize) && i < |header|
    ensures NamesSlot(w, EncodePolyId(w, salt[i], FromNat(i), 0), |header|)
  {
    hide EncodePolyId, FromNat, TileHash;
  }

  class NavMesh {
    const maxTiles: nat
    const widths: Widths
    const lutSize: nat
    const salt: array<bv32>
    const header: array<Option<TileLoc>>
    const next: array<int>
    const posLookup: array<int>
    var nextFree: int

    ghost var freeList: seq<nat>
    ghost var chains: seq<seq<nat>>
    ghost var owner: seq<int>

    ghost predicate Shape()
      reads this
    {
      && 1 <= maxTiles <= MAX_INT && Usable(widths) && IndexesFit(maxTiles, widths) && lutSize == LutSize(maxTiles)
      && salt.Length == header.Length == next.Length == maxTiles && posLookup.Length == |chains| == lutSize
      && next != posLookup && next as object != salt && next as object != header
      && posLookup as object != salt && posLookup as object != header && salt as object != header
    }

    ghost predicate Valid()
      reads this, salt, header, next, posLookup
    {
      && Shape()
      && Partition(next[..], NIL, nextFree, freeList, posLookup[..], chains, owner)
      && Books(header[..], salt[..], owner, widths, lutSize)
    }

    /** All slots are free, in order, at salt 1. */
    ghost predicate Unused()
      requires Shape()
      reads this, salt, header
    {
      && |freeList| == maxTiles
      && forall i :: 0 <= i < maxTiles ==> header[i] == None && salt[i] == 1 && freeList[i] == i
    }

    /** The reference of slot i at its current salt. */
    ghost function TileRef(i: nat): bv32
      requires Shape() && i < maxTiles
      reads this, salt
    {
      EncodePolyId(widths, salt[i], FromNat(i), 0)
    }

    /** The slot a reference names, if its salt is current; the slot need not be occupied. */
    ghost function Resolve(ref: bv32): (r: int)
      requires Shape()
      reads this, salt
      ensures r == NIL || 0 <= r < maxTiles
    {
      var i := ToNat(DecodeTile(widths, ref));
      if ref == 0 || i >= maxTiles || salt[i] != DecodeSalt(widths, ref) then NIL else i
    }

    /** All slots free, threaded from first to last, at salt 1. */
    constructor (maxTiles: nat, widths: Widths)
      requires 1 <= maxTiles <= MAX_INT && Usable(widths) && IndexesFit(maxTiles, widths)
      ensures Valid() && this.maxTiles == maxTiles && this.widths == widths
      ensures Unused()
      ensures fresh(salt) && fresh(header) && fresh(next) && fresh(posLookup)
    {
      hide Below, Less, Countable, FromNat, Partition, Books, LutSize, Usable, IndexesFit, Packed;
      this.maxTiles, this.widths := maxTiles, widths;
      var size := LutSize(maxTiles);
      lutSize := size;
      salt := new bv32[maxTiles](_ => 1);
      header := new Option<TileLoc>[maxTiles](_ => None);
      next := new int[maxTiles];
      posLookup := new int[size](_ => NIL);
      freeList, chains, owner := seq(maxTiles, i => i), seq(size, h => []), seq(maxTiles, i => FREE);
      new;
      nextFree := ThreadSlots(next);
      AllSlotsFree(next[..], posLookup[..]);
      FreshBooks(header[..], salt[..], widths, lutSize);
    }

    /** Looks a location up along its hash chain. */
    method GetTileAt(loc: TileLoc) returns (tile: int)
      requires Valid()
      ensures tile != NIL ==> 0 <= tile < maxTiles && header[tile] == Some(loc)
      ensures tile == NIL <==> !Occupied(header[..], loc)
    {
      hide TileHash, Below, Usable, IndexesFit, LutSize, Successor;
      var h := TileHash(loc.x, loc.y, lutSize);
      ghost var chain := chains[h];
      ghost var d := 0;
      ChainMembers(next[..], nextFree, freeList, posLookup[..], chains, owner, h);
      tile := posLookup[h];
      while tile != NIL
        invariant d <= |chain| && tile == (if d < |chain| then chain[d] else NIL)
        invariant forall k :: 0 <= k < d ==> header[chain[k]] != Some(loc)
        decreases |chain| - d
      {
        if header[tile] == Some(loc) {
          assert header[..][tile] == Some(loc);
          return;
        }
        SuccessorAt(chain, d);
        tile := next[tile];
        d := d + 1;
      }
      forall i | 0 <= i < maxTiles ensures header[..][i] != Some(loc) {
        if header[i] == Some(loc) { assert false; }
      }
    }

    method GetTileByRef(ref: bv32) returns (tile: int)
      requires Valid()
      ensures tile == Resolve(ref)
    {
      if ref == 0 {
        return NIL;
      }
      var tileIndex := ToNat(DecodeTile(widths, ref));
      var tileSalt := DecodeSalt(widths, ref);
      if tileIndex >= maxTiles {
        return NIL;
      }
      if salt[tileIndex] != tileSalt {
        return NIL;
      }
      tile := tileIndex;
    }

    ghost predicate Threads()
      reads this, next, posLookup
    {
      Partition(next[..], NIL, nextFree, freeList, posLookup[..], chains, owner)
    }

    /** Takes the first free slot, if there is one. */
    method TakeFirst() returns (tile: int)
      requires Shape() && Threads()
      modifies this`nextFree, this`freeList, this`owner
      ensures Shape() && Threads() && (tile == NIL <==> old(freeList) == [])
      ensures tile == NIL ==> owner == old(owner) && freeList == old(freeList)
      ensures tile != NIL ==>
                && tile == old(freeList)[0] && 0 <= tile < |old(owner)| && old(owner)[tile] == FREE
                && owner == old(owner)[tile := LOOSE] && TakenOff(old(freeList), freeList, tile, true)
    {
      hide Usable, IndexesFit, LutSize;
      tile := nextFree;
      if tile != NIL {
        assert freeList[1..] == Without(freeList, 0);
        PopFree(next[..], NIL, nextFree, freeList, posLookup[..], chains, owner);
        nextFree := next[tile];
        freeList, owner := freeList[1..], owner[tile := LOOSE];
      }
    }

    /** Takes a particular slot out of the free list; NIL when it is not free. */
    method TakeSlot(target: nat) returns (tile: int)
      requires Shape() && Threads() && target < maxTiles
      modifies this`nextFree, this`freeList, this`owner, next
      ensures Shape() && Threads() && |old(owner)| == maxTiles && (tile == NIL <==> old(owner)[target] != FREE)
      ensures tile == NIL ==> owner == old(owner) && freeList == old(freeList) && next[..] == old(next[..])
      ensures tile != NIL ==> tile == target && owner == old(owner)[target := LOOSE]
                              && TakenOff(old(freeList), freeList, tile, false)
    {
      hide Usable, IndexesFit, LutSize, Partition, Without;
      FreeMembers(next[..], nextFree, freeList, posLookup[..], chains, owner);
      var prev;
      ghost var d;
      tile, prev, d := FindFree(target);
      if tile == NIL {
        return;
      }
      SlotUnlinked(next[..], nextFree, freeList, posLookup[..], chains, owner, d, tile, prev);
      ghost var next' := if d > 0 then next[..][prev := next[tile]] else next[..];
      if prev == NIL {
        nextFree := next[tile];
      } else {
        next[prev] := next[tile];
      }
      assert next[..] == next';
      freeList, owner := Without(freeList, d), owner[tile := LOOSE];
    }

    /** Walks the free list up to the target, remembering the slot before it. */
    method FindFree(target: nat) returns (tile: int, prev: int, ghost d: nat)
      requires Shape() && Threads() && target < maxTiles
      ensures |owner| == maxTiles && (tile == NIL <==> owner[target] != FREE)
      ensures tile != NIL ==>
                && tile == target && d < |freeList| && freeList[d] == tile
                && prev == (if d == 0 then NIL else freeList[d - 1])
    {
      hide Usable, IndexesFit, LutSize, Partition, Successor, HeadOf;
      FreeMembers(next[..], nextFree, freeList, posLookup[..], chains, owner);
      HeadAt(freeList);
      d, prev, tile := 0, NIL, nextFree;
      while tile != NIL && tile != target
        invariant d <= |freeList| && tile == (if d < |freeList| then freeList[d] else NIL)
        invariant prev == (if d == 0 then NIL else freeList[d - 1])
        invariant forall k :: 0 <= k < d ==> freeList[k] != target
        decreases |freeList| - d
      {
        SuccessorAt(freeList, d);
        prev := tile;
        tile := next[tile];
        d := d + 1;
      }
      assert tile == NIL ==> target !in freeList;
    }

    /** Puts a loose slot in front of its location's chain. */
    method EnterChain(tile: nat, h: nat)
      requires Shape() && Threads() && tile < |owner| == maxTiles && owner[tile] == LOOSE && h < lutSize
      modifies this`chains, this`owner, next, posLookup
      ensures Shape() && Threads() && owner == old(owner)[tile := h]
    {
      hide Usable, IndexesFit, LutSize;
      PushList(next[..], NIL, nextFree, freeList, posLookup[..], chains, owner, tile, h);
      hide Partition;
      ghost var next', heads' := next[..][tile := posLookup[h]], posLookup[..][h := tile];
      next[tile] := posLookup[h];
      posLookup[h] := tile;
      assert next[..] == next' && posLookup[..] == heads';
      chains, owner := chains[h := [tile] + chains[h]], owner[tile := h];
    }

    /** Adds a tile at a location: in the first free slot, or restored to the slot and salt of lastRef. */
    method AddTile(loc: TileLoc, polyCount: nat, lastRef: bv32) returns (status: Status, tile: int, result: bv32)
      requires Valid() && polyCount <= MAX_INT
      modifies this`nextFree, this`freeList, this`owner, this`chains, next, posLookup, salt, header
      ensures Valid()
      ensures status == InvalidParam <==> Less(widths.poly, BitsFor(FromNat(polyCount)))
      ensures status == AlreadyOccupied <==> status != InvalidParam && old(Occupied(header[..], loc))
      ensures status == Success || status == OutOfMemory ==>
              (status == Success <==> old(CanPlace(widths, header[..], lastRef)))
      ensures status != Success ==>
                header[..] == old(header[..]) && salt[..] == old(salt[..]) && freeList == old(freeList)
      ensures status == Success ==>
                TakenOff(old(freeList), freeList, tile, lastRef == 0) && (lastRef == 0 ==> salt[..] == old(salt[..]))
      ensures status == Success ==>
                Placed(widths, old(header[..]), old(salt[..]), header[..], salt[..], loc, lastRef, tile)
                    && result == TileRef(tile)
      ensures status == Success && lastRef != 0 && NamesSlot(widths, lastRef, maxTiles) ==> result == lastRef
    {
      hide Partition, Books, FromNat, ToNat, DecodeTile, DecodeSalt, EncodePolyId, BitsFor, TileHash, Occupied,
          CanPlace, Packed, IndexesFit, LutSize, Placed, Less, NamesSlot, TakenOff;
      tile, result := NIL, 0;
      if Less(widths.poly, BitsFor(FromNat(polyCount))) {
        return InvalidParam, tile, result;
      }
      var at := GetTileAt(loc);
      if at != NIL {
        return AlreadyOccupied, tile, result;
      }
      ghost var header0, salt0 := header[..], salt[..];
      tile := Place(loc, lastRef);
      if tile == NIL {
        return OutOfMemory, tile, result;
      }
      result := EncodePolyId(widths, salt[tile], FromNat(tile), 0);
      FreshSalt(widths, header0, salt0, header[..], salt[..], loc, lastRef, tile);
      if lastRef != 0 && NamesSlot(widths, lastRef, maxTiles) {
        RestoredRef(widths, header0, salt0, header[..], salt[..], loc, lastRef, tile);
      }
      status := Success;
    }

    /** Claims a slot and fills it. */
    method Place(loc: TileLoc, lastRef: bv32) returns (tile: int)
      requires Valid() && !Occupied(header[..], loc)
      modifies this`nextFree, this`freeList, this`owner, this`chains, next, posLookup, salt, header
      ensures Valid() && (tile == NIL || 0 <= tile < maxTiles)
      ensures tile != NIL <==> old(CanPlace(widths, header[..], lastRef))
      ensures tile == NIL ==> header[..] == old(header[..]) && salt[..] == old(salt[..]) && freeList == old(freeList)
      ensures tile != NIL ==> TakenOff(old(freeList), freeList, tile, lastRef == 0)
      ensures tile != NIL ==> Placed(widths, old(header[..]), old(salt[..]), header[..], salt[..], loc, lastRef, tile)
    {
      hide Partition, Books, ToNat, DecodeTile, DecodeSalt, TileHash, Occupied, HasFree, Packed, IndexesFit, LutSize;
      ghost var owner0 := owner;
      tile := Claim(lastRef);
      if tile != NIL {
        var s := SaltFor(widths, lastRef, salt[tile]);
        Occupy(tile, loc, s, owner0);
      }
    }

    /** Takes the slot for a new tile off the free list; it is loose until it is occupied. */
    method Claim(lastRef: bv32) returns (slot: int)
      requires Valid()
      modifies this`nextFree, this`freeList, this`owner, next
      ensures Shape() && Threads() && |old(owner)| == maxTiles
      ensures slot == NIL ==> Valid() && freeList == old(freeList)
      ensures slot != NIL ==> TakenOff(old(freeList), freeList, slot, lastRef == 0)
      ensures slot != NIL ==> 0 <= slot < maxTiles && owner == old(owner)[slot := LOOSE] && header[slot] == None
      ensures var i := ToNat(DecodeTile(widths, lastRef));
              && (slot != NIL <==> if lastRef == 0 then HasFree(header[..]) else i < maxTiles && header[i] == None)
              && (slot != NIL && lastRef != 0 ==> slot == i)
    {
      hide Partition, Books, ToNat, DecodeTile, HasFree, Packed, IndexesFit, LutSize;
      FreeMembers(next[..], nextFree, freeList, posLookup[..], chains, owner);
      OwnersMatch(header[..], salt[..], owner, freeList, widths, lutSize);
      if lastRef == 0 {
        slot := TakeFirst();
      } else {
        var tileIndex := ToNat(DecodeTile(widths, lastRef));
        if tileIndex >= maxTiles {
          return NIL;
        }
        slot := TakeSlot(tileIndex);
      }
    }

    /** Fills a loose slot and enters it under its location. */
    method Occupy(slot: nat, loc: TileLoc, s: bv32, ghost owner0: seq<int>)
      requires Shape() && Threads() && slot < |owner0| == maxTiles && owner == owner0[slot := LOOSE]
      requires Books(header[..], salt[..], owner0, widths, lutSize) && !Occupied(header[..], loc)
      requires s == salt[slot] || exists ref :: s == DecodeSalt(widths, ref)
      modifies this`chains, this`owner, next, posLookup, salt, header
      ensures Valid() && header[..] == old(header[..])[slot := Some(loc)] && salt[..] == old(salt[..])[slot := s]
    {
      hide Partition, Books, DecodeSalt, TileHash, Occupied, Packed, IndexesFit, LutSize;
      AddKeepsBooks(header[..], salt[..], owner0, widths, lutSize, slot, loc, s);
      EnterChain(slot, TileHash(loc.x, loc.y, lutSize));
      ghost var header', salt' := header[..][slot := Some(loc)], salt[..][slot := s];
      salt[slot] := s;
      header[slot] := Some(loc);
      assert header[..] == header' && salt[..] == salt' && owner == owner0[slot := TileHash(loc.x, loc.y, lutSize)];
    }

    /** Takes a slot out of its location's chain. */
    method LeaveChain(tile: nat, h: nat)
      requires Shape() && Threads() && tile < |owner| == maxTiles && h < lutSize && owner[tile] == h
      modifies this`chains, this`owner, next, posLookup
      ensures Shape() && Threads() && owner == old(owner)[tile := LOOSE]
    {
      hide Usable, IndexesFit, LutSize, Without, Partition;
      var prev;
      ghost var d;
      prev, d := FindInChain(tile, h);
      ChainUnlinked(next[..], nextFree, freeList, posLookup[..], chains, owner, h, d, tile, prev);
      ghost var next' := if d > 0 then next[..][prev := next[tile]] else next[..];
      ghost var heads' := if d > 0 then posLookup[..] else posLookup[..][h := next[tile]];
      if prev != NIL {
        next[prev] := next[tile];
      } else {
        posLookup[h] := next[tile];
      }
      assert next[..] == next' && posLookup[..] == heads';
      chains, owner := chains[h := Without(chains[h], d)], owner[tile := LOOSE];
    }

    /** Walks a chain up to a slot that is on it, remembering the slot before it. */
    method FindInChain(tile: nat, h: nat) returns (prev: int, ghost d: nat)
      requires Shape() && Threads() && tile < |owner| == maxTiles && h < lutSize && owner[tile] == h
      ensures d < |chains[h]| && chains[h][d] == tile && prev == (if d == 0 then NIL else chains[h][d - 1])
    {
      hide Usable, IndexesFit, LutSize, Partition, NoDuplicates, Successor, HeadOf;
      ChainMembers(next[..], nextFree, freeList, posLookup[..], chains, owner, h);
      HeadAt(chains[h]);
      ghost var chain := chains[h];
      ghost var t: nat :| t < |chain| && chain[t] == tile;
      d, prev := 0, NIL;
      var cur := posLookup[h];
      while cur != tile
        invariant d <= t && cur == chain[d] && prev == (if d == 0 then NIL else chain[d - 1])
        decreases t - d
      {
        SuccessorAt(chain, d);
        prev := cur;
        cur := next[cur];
        d := d + 1;
      }
    }

    /** Returns a loose slot to the front of the free list. */
    method Release(tile: nat)
      requires Shape() && Threads() && tile < |owner| == maxTiles && owner[tile] == LOOSE
      modifies this`nextFree, this`freeList, this`owner, next
      ensures Shape() && Threads() && owner == old(owner)[tile := FREE] && freeList == [tile] + old(freeList)
    {
      hide Usable, IndexesFit, LutSize;
      PushFree(next[..], NIL, nextFree, freeList, posLookup[..], chains, owner, tile);
      hide Partition;
      ghost var next' := next[..][tile := nextFree];
      next[tile] := nextFree;
      nextFree := tile;
      assert next[..] == next';
      freeList, owner := [tile] + freeList, owner[tile := FREE];
    }

    /** Removes the tile a current reference names. The reference stops resolving at once. */
    method RemoveTile(ref: bv32) returns (status: Status)
      requires Valid() && (Resolve(ref) != NIL ==> header[Resolve(ref)].Some?)
      modifies this`nextFree, this`freeList, this`owner, this`chains, next, posLookup, salt, header
      ensures Valid() && status == (if old(Resolve(ref)) != NIL then Success else InvalidParam)
      ensures status != Success ==> header[..] == old(header[..]) && salt[..] == old(salt[..])
      ensures status == Success ==>
                var i := old(Resolve(ref));
                && header[..] == old(header[..])[i := None]
                   && salt[..] == old(salt[..])[i := NextSalt(widths, old(salt[i]))]
                && freeList == [i as nat] + old(freeList) && salt[i] != 0
      ensures old(SaltsPositive(salt[..])) ==> SaltsPositive(salt[..])
      ensures Resolve(ref) == NIL
    {
      hide Partition, Books, ToNat, DecodeTile, DecodeSalt, NextSalt, TileHash, Packed, IndexesFit, LutSize;
      if ref == 0 {
        return InvalidParam;
      }
      var tileIndex := ToNat(DecodeTile(widths, ref));
      var tileSalt := DecodeSalt(widths, ref);
      if tileIndex >= maxTiles {
        return InvalidParam;
      }
      if salt[tileIndex] != tileSalt {
        return InvalidParam;
      }
      var loc := header[tileIndex].value;
      ghost var owner0 := owner;
      RemoveKeepsBooks(header[..], salt[..], owner, widths, lutSize, tileIndex, loc);
      LeaveChain(tileIndex, TileHash(loc.x, loc.y, lutSize));
      ghost var header', salt' := header[..][tileIndex := None],
          salt[..][tileIndex := NextSalt(widths, salt[tileIndex])];
      header[tileIndex] := None;
      salt[tileIndex] := NextSalt(widths, salt[tileIndex]);
      assert header[..] == header' && salt[..] == salt';
      Release(tileIndex);
      assert owner == owner0[tileIndex := FREE];
      status := Success;
    }

    /** Removing a tile and adding it back under its old reference restores the very same reference. */
    method RemoveAndRestore(i: nat, polyCount: nat) returns (status: Status, ref: bv32, result: bv32)
      requires Valid() && i < maxTiles && header[i].Some? && salt[i] != 0 && polyCount <= MAX_INT
      requires !Less(widths.poly, BitsFor(FromNat(polyCount)))
      modifies this`nextFree, this`freeList, this`owner, this`chains, next, posLookup, salt, header
      ensures Valid() && ref == old(TileRef(i)) && status == Success && result == ref
      ensures header[..] == old(header[..]) && salt[..] == old(salt[..]) && Resolve(ref) == i
    {
      hide Partition, FromNat, ToNat, DecodeTile, DecodeSalt, NextSalt, TileHash, Packed, LutSize, Below,
          EncodePolyId, BitsFor, Less;
      var loc := header[i].value;
      ghost var header0, salt0 := header[..], salt[..];
      LocationIsUnique(header[..], salt[..], owner, widths, lutSize, i);
      TileRefDecodes(widths, salt[i], i, maxTiles);
      ref := EncodePolyId(widths, salt[i], FromNat(i), 0);
      hide Books, IndexesFit;
      var removed := RemoveTile(ref);
      assert header[..] == header0[i := None];
      assert !Occupied(header[..], loc);
      ghost var tile;
      status, tile, result := AddTile(loc, polyCount, ref);
      assert header[..] == header0 && salt[..] == salt0;
    }
  }

  lemma SuccessorAt(s: seq<nat>, k: nat)
    requires k < |s|
    ensures Successor(NIL, s, k) == if k + 1 < |s| then s[k + 1] else NIL
  {
  }

  lemma HeadAt(s: seq<nat>)
    ensures HeadOf(NIL, s) == if |s| > 0 then s[0] else NIL
  {
  }

  lemma LocationIsUnique(header: seq<Option<TileLoc>>, salt: seq<bv32>, owner: seq<int>, w: Widths, lutSize: nat,
                         i: nat)
    requires Packed(w) && lutSize >= 1 && Books(header, salt, owner, w, lutSize) && i < |header| && header[i].Some?
    ensures !Occupied(header[i := None], header[i].value) && Below(salt[i], w.salt)
  {
  }

  lemma RemoveKeepsBooks(header: seq<Option<TileLoc>>, salt: seq<bv32>, owner: seq<int>, w: Widths, lutSize: nat,
                         tile: nat, loc: TileLoc)
    requires Usable(w) && lutSize >= 1 && Books(header, salt, owner, w, lutSize) && tile < |header|
             && header[tile] == Some(loc)
    ensures Books(header[tile := None], salt[tile := NextSalt(w, salt[tile])], owner[tile := FREE], w, lutSize)
    ensures NextSalt(w, salt[tile]) != salt[tile] && NextSalt(w, salt[tile]) != 0
    ensures |owner| == |header| && owner[tile] == TileHash(loc.x, loc.y, lutSize)
  {
    hide TileHash, Below, NextSalt;
    NextSaltDiffers(w, salt[tile]);
  }

  lemma ChainUnlinked(next: seq<int>, free: int, freeList: seq<nat>, heads: seq<int>, chains: seq<seq<nat>>,
                      owner: seq<int>, h: nat, d: nat, tile: nat, prev: int)
    requires Partition(next, NIL, free, freeList, heads, chains, owner) && h < |chains| && d < |chains[h]|
             && tile == chains[h][d]
    requires prev == if d == 0 then NIL else chains[h][d - 1]
    ensures tile < |next| == |owner| && |heads| == |chains| && (d > 0 <==> prev != NIL)
            && (d > 0 ==> 0 <= prev < |next|)
    ensures Partition(if d > 0 then next[prev := next[tile]] else next, NIL, free, freeList,
                      if d > 0 then heads else heads[h := next[tile]], chains[h := Without(chains[h], d)],
                          owner[tile := LOOSE])
  {
    Unlink(next, NIL, free, freeList, heads, chains, owner, h, d);
  }

  lemma SlotUnlinked(next: seq<int>, free: int, freeList: seq<nat>, heads: seq<int>, chains: seq<seq<nat>>,
                     owner: seq<int>, d: nat, tile: nat, prev: int)
    requires Partition(next, NIL, free, freeList, heads, chains, owner) && d < |freeList| && tile == freeList[d]
    requires prev == if d == 0 then NIL else freeList[d - 1]
    ensures tile < |next| == |owner| && (d > 0 <==> prev != NIL) && (d > 0 ==> 0 <= prev < |next|)
    ensures Partition(if d > 0 then next[prev := next[tile]] else next, NIL, if d > 0 then free else next[tile],
                      Without(freeList, d),
                      heads, chains, owner[tile := LOOSE])
  {
    UnlinkFree(next, NIL, free, freeList, heads, chains, owner, d);
  }

  lemma FreeMembers(next: seq<int>, free: int, freeList: seq<nat>, heads: seq<int>, chains: seq<seq<nat>>,
                    owner: seq<int>)
    requires Partition(next, NIL, free, freeList, heads, chains, owner)
    ensures |owner| == |next| && free == HeadOf(NIL, freeList)
    ensures forall k :: 0 <= k < |freeList| ==>
              && freeList[k] < |next| && owner[freeList[k]] == FREE
              && next[freeList[k]] == Successor(NIL, freeList, k)
    ensures forall i :: 0 <= i < |owner| && owner[i] == FREE ==> i in freeList
  {
    forall k | 0 <= k < |freeList| ensures owner[freeList[k]] == FREE { assert freeList[k] in freeList; }
  }

  lemma OwnersMatch(header: seq<Option<TileLoc>>, salt: seq<bv32>, owner: seq<int>, freeList: seq<nat>, w: Widths,
                    lutSize: nat)
    requires Packed(w) && lutSize >= 1 && Books(header, salt, owner, w, lutSize)
    requires forall k :: 0 <= k < |freeList| ==> freeList[k] < |owner| && owner[freeList[k]] == FREE
    requires forall i :: 0 <= i < |owner| && owner[i] == FREE ==> i in freeList
    ensures |header| == |salt| == |owner|
    ensures forall i :: 0 <= i < |header| ==> (header[i] == None <==> owner[i] == FREE)
    ensures HasFree(header) <==> freeList != []
  {
    if freeList != [] { assert header[freeList[0]] == None; }
  }

  lemma AddKeepsBooks(header: seq<Option<TileLoc>>, salt: seq<bv32>, owner: seq<int>, w: Widths, lutSize: nat,
                      tile: nat, loc: TileLoc, s: bv32)
    requires Packed(w) && lutSize >= 1 && Books(header, salt, owner, w, lutSize) && tile < |header|
    requires !Occupied(header, loc)
    requires s == salt[tile] || exists ref :: s == DecodeSalt(w, ref)
    ensures Books(header[tile := Some(loc)], salt[tile := s], owner[tile := TileHash(loc.x, loc.y, lutSize)], w,
                  lutSize)
  {
    hide TileHash, Below, DecodeSalt;
    if s != salt[tile] {
      var ref :| s == DecodeSalt(w, ref);
      DecodedSaltFits(w, ref);
    }
  }

  lemma DecodedSaltFits(w: Widths, ref: bv32)
    requires Packed(w)
    ensures Below(DecodeSalt(w, ref), w.salt)
  {
    hide Shr;
    MaskedBelow(Shr(ref, w.poly + w.tile), w.salt);
  }

  lemma MaskedBelow(x: bv32, k: bv32)
    requires k <= 31
    ensures Below(And(x, Mask(k)), k)
  {
  }

  lemma AllSlotsFree(next: seq<int>, posLookup: seq<int>)
    requires forall k :: 0 <= k < |next| ==> next[k] == if k + 1 < |next| then k + 1 else NIL
    requires forall h :: 0 <= h < |posLookup| ==> posLookup[h] == NIL
    ensures Partition(next, NIL, if |next| > 0 then 0 else NIL, seq(|next|, i => i), posLookup,
                      seq(|posLookup|, h => []), seq(|next|, i => FREE))
  {
    var all: seq<nat> := seq(|next|, i => i);
    forall x | 0 <= x < |next| ensures x in all { assert all[x] == x; }
  }

  lemma FreshBooks(header: seq<Option<TileLoc>>, salt: seq<bv32>, w: Widths, lutSize: nat)
    requires Usable(w) && lutSize >= 1 && |header| == |salt|
    requires forall i :: 0 <= i < |header| ==> header[i] == None && salt[i] == 1
    ensures Books(header, salt, seq(|header|, i => FREE), w, lutSize)
  {
    hide Below;
    SaltOne(w);
  }

  lemma SaltOne(w: Widths)
    requires Usable(w)
    ensures Below(1, w.salt)
  {
    ZeroBelow(w.salt);
    MaskedIncrement(0, w.salt);
  }

  /** A bucket's chain holds exactly the slots it owns, linked in order. */
  lemma ChainMembers(next: seq<int>, free: int, freeList: seq<nat>, heads: seq<int>, chains: seq<seq<nat>>,
                     owner: seq<int>, h: nat)
    requires Partition(next, NIL, free, freeList, heads, chains, owner) && h < |chains|
    ensures var s := chains[h];
            && heads[h] == HeadOf(NIL, s)
            && (forall k :: 0 <= k < |s| ==> s[k] < |next| && owner[s[k]] == h && next[s[k]] == Successor(NIL, s, k))
            && (forall i :: 0 <= i < |owner| && owner[i] == h ==> i in s)
            && NoDuplicates(s)
  {
    forall k | 0 <= k < |chains[h]| ensures owner[chains[h][k]] == h { assert chains[h][k] in chains[h]; }
  }

  /** A reference made up of a salt, a slot and a polygon names the slot exactly while the slot has that salt. */
  lemma ResolvesExactlyWhen(mesh: NavMesh, s: bv32, i: nat, ip: bv32)
    requires mesh.Shape() && i < mesh.maxTiles && Below(s, mesh.widths.salt) && Below(ip, mesh.widths.poly)
    requires EncodePolyId(mesh.widths, s, FromNat(i), ip) != 0
    ensures mesh.Resolve(EncodePolyId(mesh.widths, s, FromNat(i), ip)) == if mesh.salt[i] == s then i else NIL
  {
    hide EncodePolyId, DecodeTile, DecodeSalt, FromNat, ToNat, Below, LutSize;
    DecodeEncode(mesh.widths, s, FromNat(i), ip);
    ToFrom(i);
  }

  /** There are as many buckets as a quarter of the tiles, rounded up to a power of two. */
  lemma BucketCount(maxTiles: nat, a: nat)
    requires maxTiles <= MAX_INT && LeastPower(maxTiles / 4, a)
    ensures LutSize(maxTiles) == Pow2(a)
  {
    if maxTiles / 4 == 0 {
      LeastPowerUnique(0, a, 0);
      NoTiles();
    } else {
      RoundedUp(maxTiles / 4, a);
    }
  }

  lemma NoTiles()
    ensures ToNat(NextPow2(FromNat(0))) == 0
  {
  }

  /** Every slot is on exactly one of the free list and the hash chains, once: a free one on the free list, a tile
      on the chain of its location; and no two tiles share a location. */
  lemma EachSlotOnce(mesh: NavMesh, i: nat)
    requires mesh.Valid() && i < mesh.maxTiles
    ensures i in mesh.freeList <==> mesh.header[i] == None
    ensures forall h :: 0 <= h < mesh.lutSize ==>
              (i in mesh.chains[h] <==> exists loc ::
                  && mesh.header[i] == Some(loc)
                  && TileHash(loc.x, loc.y, mesh.lutSize) == h)
    ensures NoDuplicates(mesh.freeList) && forall h :: 0 <= h < mesh.lutSize ==> NoDuplicates(mesh.chains[h])
    ensures forall j :: 0 <= j < mesh.maxTiles && mesh.header[i].Some? && mesh.header[j] == mesh.header[i] ==> j == i
  {
    hide TileHash, Usable, IndexesFit, LutSize, Below;
    assert mesh.header[..][i] == mesh.header[i];
    forall h | 0 <= h < mesh.lutSize ensures i in mesh.chains[h] <==> mesh.owner[i] == h {
      assert Owns(mesh.owner, h, mesh.chains[h]);
    }
    forall j | 0 <= j < mesh.maxTiles && mesh.header[i].Some? && mesh.header[j] == mesh.header[i] ensures j == i {
      assert mesh.header[..][j] == mesh.header[..][i];
    }
  }

  lemma SmallTable(w: Widths)
    requires w == Widths(30, 1, 1)
    ensures Packed(w) && Usable(w) && IndexesFit(2, w) && !Less(w.poly, BitsFor(FromNat(1)))
    ensures var ref := EncodePolyId(w, 0, FromNat(1), 0);
            ref != 0 && ToNat(DecodeTile(w, ref)) == 1 && DecodeSalt(w, ref) == 0
  {
    assert FromNat(0) == 0 && FromNat(1) == 1;
    OneBit();
    hide FromNat, BitsFor, Less;
    assert IndexesFit(2, w);
    hide IndexesFit, Below;
    ZeroBelow(w.salt);
    TileRefDecodes(w, 0, 1, 2);
    NoTileInZero(w);
  }

  lemma OneBit()
    ensures !Less(1, BitsFor(1))
  {
  }

  lemma NoTileInZero(w: Widths)
    requires Packed(w)
    ensures ToNat(DecodeTile(w, 0)) == 0
  {
  }

  /** A reference with salt 0 to the free slot 1: it is accepted, and leaves that slot with salt 0. */
  method ZeroSaltExample() returns (mesh: NavMesh, status: Status, tile: int, ref: bv32)
    ensures fresh(mesh) && mesh.Valid() && mesh.maxTiles == 2 && status == Success && tile == 1
    ensures mesh.salt[1] == 0 && !SaltsPositive(mesh.salt[..])
  {
    hide FromNat, ToNat, DecodeTile, DecodeSalt, EncodePolyId, BitsFor, Less, Packed, Usable, IndexesFit, LutSize,
        Books, Partition;
    var w := Widths(30, 1, 1);
    SmallTable(w);
    mesh := new NavMesh(2, w);
    var lastRef := EncodePolyId(w, 0, FromNat(1), 0);
    status, tile, ref := mesh.AddTile(TileLoc(0, 0, 0), 1, lastRef);
    assert mesh.salt[..][1] == 0;
  }
}
