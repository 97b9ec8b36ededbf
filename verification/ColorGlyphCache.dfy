/** The colour glyph cache: maps, a clock of lookups and a byte count, kept so
    that they always describe one recency-ordered cache. */
module ColorGlyphCache {
  import opened ColorGlyphs
  import opened Digest
  import opened Options
  import opened Seqs

  function SaturatingSub(a: nat, b: nat): nat {
    if a < b then 0 else a - b
  }

  class ColorGlyphCache {
    const fonts: Fonts
    const chain: seq<Face>
    const budget: nat
    var files: map<string, Option<seq<byte>>>
    var source: map<char, Option<nat>>
    var entries: map<char, Glyph>
    var used: map<char, nat>
    var clock: nat
    var bytes: nat
    var cellSize: Size
    /** The cached characters by tick, the coldest first. */
    ghost var recency: seq<char>

    ghost predicate FilesAgree()
      reads this
    {
      forall p :: p in files ==> files[p] == fonts.mapped(p)
    }

    /** Ticks order the cached characters, and the byte count is their sum. */
    ghost predicate Accounted()
      reads this
    {
      && Ticked(recency, used) && entries.Keys == used.Keys
      && (forall c :: c in used ==> used[c] <= clock)
      && bytes == Total(recency, entries)
    }

    ghost predicate Valid()
      reads this
    {
      && FilesAgree() && Accounted() && WellFormed(View(), chain)
      && (bytes <= budget || |recency| <= 1)
    }

    ghost function View(): Cache
      reads this
    {
      Cache(cellSize, source, entries, recency)
    }

    constructor (fonts: Fonts, chain: seq<Face>, budgetMb: nat)
      ensures Valid() && View() == EMPTY
      ensures this.fonts == fonts && this.chain == chain && budget == budgetMb * 1024 * 1024
    {
      this.fonts, this.chain, budget := fonts, chain, budgetMb * 1024 * 1024;
      files, source, entries, used := map[], map[], map[], map[];
      clock, bytes, cellSize, recency := 0, 0, Size(0, 0), [];
    }

    /** A lookup: the cached glyph, a freshly drawn one, or nothing. */
    method Get(c: char, cell: Size, cells: nat) returns (r: Option<Glyph>)
      requires Valid()
      modifies this
      ensures Valid()
      ensures (View(), r) == Lookup(fonts, chain, budget, old(View()), c, cell, cells)
    {
      Invalidate(cell);
      if cell.width == 0 || cell.height == 0 {
        return None;
      }
      clock := clock + 1;
      var now := clock;
      if c in entries {
        Touch(c, now);
        return Some(entries[c]);
      }
      r := Miss(c, cell, cells, now);
    }

    /** Find the face that owns `c` and draw it. */
    method Miss(c: char, cell: Size, cells: nat, now: nat) returns (r: Option<Glyph>)
      requires Valid() && c !in entries
      requires now == clock && forall k :: k in used ==> used[k] < now
      modifies this`files, this`source, this`entries, this`used, this`bytes, this`recency
      ensures Valid()
      ensures (View(), r) == Missed(fonts, chain, budget, old(View()), c, cell, cells)
    {
      if c in source && source[c].None? {
        return None;
      }
      var index := SourceIndex(c);
      if index.None? {
        source := source[c := None];
        return None;
      }
      r := Render(c, index.value, cell, AtLeastOne(cells), now);
    }

    /** The face that owns `c`: the one remembered, if the chain was walked for
        it before. */
    method SourceIndex(c: char) returns (index: Option<nat>)
      requires FilesAgree()
      modifies this`files
      ensures FilesAgree()
      ensures index == if c in source then source[c] else Claiming(fonts, chain, c)
    {
      if c in source {
        return source[c];
      }
      index := ClaimingIndex(c);
    }

    /** Rasterize `c` from the face that owns it, and cache the result or the
        lack of one. */
    method Render(c: char, index: nat, cell: Size, cells: nat, now: nat) returns (r: Option<Glyph>)
      requires Valid() && c !in entries && index < |chain|
      requires now == clock && forall k :: k in used ==> used[k] < now
      modifies this`files, this`source, this`entries, this`used, this`bytes, this`recency
      ensures Valid()
      ensures (View(), r) == Rendered(fonts, chain, budget, old(View()), c, index, cell, cells)
    {
      r := Rasterize(chain[index], c, cell, cells);
      if r.None? {
        source := source[c := None];
        return;
      }
      Admit(c, index, r.value, now);
    }

    /** A new cell size makes every raster stale. */
    method Invalidate(cell: Size)
      requires Valid()
      modifies this`entries, this`used, this`bytes, this`cellSize, this`recency
      ensures Valid() && View() == Resized(old(View()), cell)
    {
      if cellSize != cell {
        entries, used, bytes, cellSize, recency := map[], map[], 0, cell, [];
      }
    }

    method Touch(c: char, now: nat)
      requires Valid() && c in entries && now == clock && forall k :: k in used ==> used[k] < now
      modifies this`used, this`recency
      ensures Valid() && View() == old(View()).(recency := Touched(old(recency), c))
    {
      TouchTicks(recency, used, c, now);
      TouchTotal(recency, entries, c);
      TouchedElements(recency, c);
      recency := Touched(recency, c);
      used := used[c := now];
    }

    /** Put a fresh glyph in at the hot end and make room for it. */
    method Admit(c: char, index: nat, glyph: Glyph, now: nat)
      requires Valid() && c !in entries && index < |chain|
      requires now == clock && forall k :: k in used ==> used[k] < now
      modifies this`source, this`entries, this`used, this`bytes, this`recency
      ensures Valid() && View() == Inserted(old(View()), c, index, glyph, budget)
    {
      InsertTick(View(), used, chain, budget, c, index, glyph, now);
      source := source[c := Some(index)];
      Insert(c, glyph, now);
      EvictToBudget(c);
    }

    method Insert(c: char, glyph: Glyph, now: nat)
      requires Accounted() && now == clock
      requires Ticked(recency + [c], used[c := now])
      requires Total(recency + [c], entries[c := glyph]) == Total(recency, entries) + glyph.Bytes()
      modifies this`entries, this`used, this`bytes, this`recency
      ensures Accounted()
      ensures recency == old(recency) + [c] && entries == old(entries)[c := glyph]
    {
      bytes := bytes + glyph.Bytes();
      entries := entries[c := glyph];
      used := used[c := now];
      recency := recency + [c];
    }

    /** The least recently used character other than `keep`. */
    method Coldest(keep: char) returns (coldest: Option<char>)
      requires Ticked(recency, used) && |recency| > 1 && recency[|recency| - 1] == keep
      ensures coldest == Some(recency[0])
    {
      TickedElements(recency, used);
      assert recency[0] in used && recency[0] != keep;
      var c :| c in used && c != keep && forall k :: k in used && k != keep ==> used[c] <= used[k];
      coldest := Some(c);
    }

    /** Evict from the cold end while the bytes exceed the budget, but never the
        glyph just admitted. */
    method EvictToBudget(keep: char)
      requires Accounted() && recency != [] && recency[|recency| - 1] == keep
      modifies this`entries, this`used, this`bytes, this`recency
      ensures Accounted() && recency != []
      ensures bytes <= budget || |recency| == 1
      ensures recency == Evicted(old(recency), old(entries), budget).0
      ensures entries == Evicted(old(recency), old(entries), budget).1
    {
      CountEntries(recency, used, entries);
      while bytes > budget && |entries| > 1
        invariant Accounted() && |entries| == |recency|
        invariant recency != [] && recency[|recency| - 1] == keep
        invariant Evicted(recency, entries, budget) == Evicted(old(recency), old(entries), budget)
        decreases |recency|
      {
        var coldest := Coldest(keep);
        if coldest.None? {
          break;
        }
        TickedElements(recency, used);
        DropTotal(recency, entries);
        if coldest.value in entries {
          var evicted := entries[coldest.value];
          entries := entries - {coldest.value};
          bytes := SaturatingSub(bytes, evicted.Bytes());
        }
        used := used - {coldest.value};
        recency := recency[1..];
        CountEntries(recency, used, entries);
      }
    }

    /** Walk the chain to the face that owns the character. */
    method ClaimingIndex(c: char) returns (r: Option<nat>)
      requires FilesAgree()
      modifies this`files
      ensures FilesAgree()
      ensures r == Claiming(fonts, chain, c)
      ensures match r
              case Some(i) => ClaimsFirst(fonts, chain, c, i)
              case None => forall k :: 0 <= k < |chain| ==> !ClaimedBy(fonts, chain[k], c)
    {
      ClaimingIsFirst(fonts, chain, c);
      for i := 0 to |chain|
        invariant FilesAgree()
        invariant Claiming(fonts, chain, c) == ClaimingFrom(fonts, chain, c, i)
      {
        var data := Load(chain[i].path);
        if data.None? {
          continue;
        }
        var claims := fonts.claims(data.value, chain[i].index, c);
        if claims {
          return Some(i);
        }
      }
      return None;
    }

    method Rasterize(face: Face, c: char, cell: Size, cells: nat) returns (r: Option<Glyph>)
      requires FilesAgree()
      modifies this`files
      ensures FilesAgree()
      ensures r == fonts.Rasterize(face, c, cell, cells)
    {
      var data := Load(face.path);
      if data.None? {
        return None;
      }
      r := fonts.raster(data.value, face.index, c, cell, cells);
    }

    /** Map a font file on first use and remember how that went. */
    method Load(path: string) returns (data: Option<seq<byte>>)
      requires FilesAgree()
      modifies this`files
      ensures FilesAgree() && path in files
      ensures files == if path in old(files) then old(files) else old(files)[path := data]
      ensures data == fonts.mapped(path)
    {
      if path !in files {
        files := files[path := fonts.mapped(path)];
      }
      data := files[path];
    }
  }

  /** `recency` is the order of the ticks: its head has the lowest, and the rest
      is the order of the others. */
  ghost predicate Ticked(recency: seq<char>, used: map<char, nat>)
    decreases |recency|
  {
    if recency == [] then used == map[]
    else
      && recency[0] in used
      && (forall c :: c in used && c != recency[0] ==> used[recency[0]] < used[c])
      && Ticked(recency[1..], used - {recency[0]})
  }

  lemma {:induction false} TickedElements(recency: seq<char>, used: map<char, nat>)
    requires Ticked(recency, used)
    ensures Distinct(recency) && Elements(recency) == used.Keys
    decreases |recency|
  {
    if recency != [] {
      TickedElements(recency[1..], used - {recency[0]});
      assert recency[0] !in Elements(recency[1..]);
      assert recency == [recency[0]] + recency[1..];
      assert Elements(recency) == {recency[0]} + Elements(recency[1..]);
    }
  }

  /** A fresh tick puts a new character at the hot end. */
  lemma {:induction false} TickedAppend(recency: seq<char>, used: map<char, nat>, c: char, now: nat)
    requires Ticked(recency, used) && c !in used
    requires forall k :: k in used ==> used[k] < now
    ensures Ticked(recency + [c], used[c := now])
    decreases |recency|
  {
    if recency == [] {
      assert used[c := now] - {c} == map[];
      assert (recency + [c])[1..] == [];
    } else {
      TickedAppend(recency[1..], used - {recency[0]}, c, now);
      assert (recency + [c])[1..] == recency[1..] + [c];
      assert used[c := now] - {recency[0]} == (used - {recency[0]})[c := now];
    }
  }

  lemma {:induction false} TickedRemove(recency: seq<char>, used: map<char, nat>, k: nat)
    requires Ticked(recency, used) && k < |recency|
    ensures Ticked(RemoveAt(recency, k), used - {recency[k]})
    decreases |recency|
  {
    if k == 0 {
      assert RemoveAt(recency, 0) == recency[1..];
    } else {
      var rest := used - {recency[0]};
      TickedElements(recency, used);
      TickedRemove(recency[1..], rest, k - 1);
      assert RemoveAt(recency, k) == [recency[0]] + RemoveAt(recency[1..], k - 1);
      assert used - {recency[k]} - {recency[0]} == rest - {recency[k]};
      TickedPrepend(recency[0], RemoveAt(recency[1..], k - 1), used - {recency[k]});
    }
  }

  /** A character with the lowest tick goes in front of an order of the others. */
  lemma TickedPrepend(c: char, rest: seq<char>, used: map<char, nat>)
    requires c in used && Ticked(rest, used - {c})
    requires forall k :: k in used && k != c ==> used[c] < used[k]
    ensures Ticked([c] + rest, used)
  {
    assert ([c] + rest)[1..] == rest;
  }

  /** A fresh tick puts a cached character at the hot end. */
  lemma TouchTicks(recency: seq<char>, used: map<char, nat>, c: char, now: nat)
    requires Ticked(recency, used) && c in recency
    requires forall k :: k in used ==> used[k] < now
    ensures Ticked(Touched(recency, c), used[c := now])
  {
    TickedRemove(recency, used, IndexOf(recency, c));
    TickedAppend(RemoveAt(recency, IndexOf(recency, c)), used - {c}, c, now);
    assert (used - {c})[c := now] == used[c := now];
  }

  lemma TouchTotal(recency: seq<char>, entries: map<char, Glyph>, c: char)
    requires c in recency
    ensures Total(Touched(recency, c), entries) == Total(recency, entries)
  {
    var k := IndexOf(recency, c);
    assert recency == recency[..k] + ([c] + recency[k + 1..]);
    TotalToTheEnd(recency[..k], c, recency[k + 1..], entries);
  }

  lemma TotalToTheEnd(head: seq<char>, c: char, tail: seq<char>, entries: map<char, Glyph>)
    ensures Total(head + tail + [c], entries) == Total(head + ([c] + tail), entries)
  {
    TotalConcat(head, [c] + tail, entries);
    TotalConcat([c], tail, entries);
    TotalConcat(head + tail, [c], entries);
    TotalConcat(head, tail, entries);
  }

  lemma InsertTotal(recency: seq<char>, entries: map<char, Glyph>, c: char, glyph: Glyph)
    requires c !in recency
    ensures Total(recency + [c], entries[c := glyph]) == Total(recency, entries) + glyph.Bytes()
  {
    TotalConcat(recency, [c], entries[c := glyph]);
    TotalFrame(recency, entries, entries[c := glyph]);
  }

  lemma InsertTick(s: Cache, used: map<char, nat>, chain: seq<Face>, budget: nat, c: char, index: nat, glyph: Glyph, now: nat)
    requires Ticked(s.recency, used) && s.entries.Keys == used.Keys && WellFormed(s, chain)
    requires c !in s.entries && index < |chain| && forall k :: k in used ==> used[k] < now
    ensures Ticked(s.recency + [c], used[c := now])
    ensures Total(s.recency + [c], s.entries[c := glyph]) == Total(s.recency, s.entries) + glyph.Bytes()
    ensures WellFormed(Inserted(s, c, index, glyph, budget), chain)
  {
    TickedElements(s.recency, used);
    InsertedIsWellFormed(s, chain, c, index, glyph, budget);
    TickedAppend(s.recency, used, c, now);
    InsertTotal(s.recency, s.entries, c, glyph);
  }

  lemma DropTotal(recency: seq<char>, entries: map<char, Glyph>)
    requires Distinct(recency) && recency != [] && recency[0] in entries
    ensures Total(recency, entries) == entries[recency[0]].Bytes() + Total(recency[1..], entries - {recency[0]})
  {
    TotalFrame(recency[1..], entries, entries - {recency[0]});
  }

  lemma CountEntries(recency: seq<char>, used: map<char, nat>, entries: map<char, Glyph>)
    requires Ticked(recency, used) && entries.Keys == used.Keys
    ensures |recency| == |entries|
  {
    TickedElements(recency, used);
    DistinctCount(recency);
  }
}
