/** What a colour glyph is, where it comes from, and the recency-ordered cache
    that stands between the two. */
module ColorGlyphs {
  import opened Digest
  import opened Options
  import opened Seqs

  datatype Face = Face(path: string, index: nat)

  datatype Size = Size(width: nat, height: nat) {
    predicate Empty() { width == 0 || height == 0 }
  }

  datatype Glyph = Glyph(texture: seq<byte>, left: int, top: int, width: int, height: int) {
    function Bytes(): nat {
      (if width > 0 then width else 0) * (if height > 0 then height else 0) * 4
    }
  }

  /** Font files and the rasterizer, as far as the cache can tell. */
  datatype Fonts = Fonts(
    mapped: string -> Option<seq<byte>>,
    claims: (seq<byte>, nat, char) -> bool,
    raster: (seq<byte>, nat, char, Size, nat) -> Option<Glyph>)
  {
    predicate Claims(face: Face, c: char) {
      match mapped(face.path)
      case None => false
      case Some(data) => claims(data, face.index, c)
    }

    function Rasterize(face: Face, c: char, cell: Size, cells: nat): Option<Glyph> {
      match mapped(face.path)
      case None => None
      case Some(data) => raster(data, face.index, c, cell, cells)
    }
  }

  /** The first face at or after `i` whose cmap claims `c`. */
  function ClaimingFrom(fonts: Fonts, chain: seq<Face>, c: char, i: nat): (r: Option<nat>)
    requires i <= |chain|
    ensures r.Some? ==> i <= r.value < |chain|
    decreases |chain| - i
  {
    if i == |chain| then None
    else if fonts.Claims(chain[i], c) then Some(i)
    else ClaimingFrom(fonts, chain, c, i + 1)
  }

  function Claiming(fonts: Fonts, chain: seq<Face>, c: char): (r: Option<nat>)
    ensures r.Some? ==> r.value < |chain|
  {
    ClaimingFrom(fonts, chain, c, 0)
  }

  /** The face at i claims the character, and no face before it does. */
  ghost predicate ClaimsFirst(fonts: Fonts, chain: seq<Face>, c: char, i: nat) {
    && i < |chain| && ClaimedBy(fonts, chain[i], c)
    && forall k :: 0 <= k < i ==> !ClaimedBy(fonts, chain[k], c)
  }

  /** The face's file can be mapped, and the cmap at the face's index has the
      character. */
  ghost predicate ClaimedBy(fonts: Fonts, face: Face, c: char) {
    exists data :: fonts.mapped(face.path) == Some(data) && fonts.claims(data, face.index, c)
  }

  lemma {:induction false} ClaimingFromIsFirst(fonts: Fonts, chain: seq<Face>, c: char, i: nat)
    requires i <= |chain| && forall k :: 0 <= k < i ==> !ClaimedBy(fonts, chain[k], c)
    ensures match ClaimingFrom(fonts, chain, c, i)
            case Some(j) => ClaimsFirst(fonts, chain, c, j)
            case None => forall k :: 0 <= k < |chain| ==> !ClaimedBy(fonts, chain[k], c)
    decreases |chain| - i
  {
    if i < |chain| && !fonts.Claims(chain[i], c) {
      ClaimingFromIsFirst(fonts, chain, c, i + 1);
    }
  }

  /** A character is drawn from the first face that claims it, and from none
      exactly when none does. */
  lemma ClaimingIsFirst(fonts: Fonts, chain: seq<Face>, c: char)
    ensures forall i: nat :: Claiming(fonts, chain, c) == Some(i) <==> ClaimsFirst(fonts, chain, c, i)
    ensures Claiming(fonts, chain, c).None? <==> forall k :: 0 <= k < |chain| ==> !ClaimedBy(fonts, chain[k], c)
  {
    ClaimingFromIsFirst(fonts, chain, c, 0);
    forall i: nat, j: nat | ClaimsFirst(fonts, chain, c, i) && ClaimsFirst(fonts, chain, c, j)
      ensures i == j
    {
    }
  }

  function AtLeastOne(n: nat): nat {
    if n == 0 then 1 else n
  }

  /** A lookup without any cache: walk the chain to the face that claims the
      character, and draw it from that face at the current cell size. */
  function Uncached(fonts: Fonts, chain: seq<Face>, c: char, cell: Size, cells: nat): Option<Glyph> {
    if cell.Empty() then None
    else match Claiming(fonts, chain, c)
         case None => None
         case Some(i) => fonts.Rasterize(chain[i], c, cell, AtLeastOne(cells))
  }

  /** What an uncached lookup draws: in a cell that has pixels, the picture that the
      first face claiming the character has of it at that size, one cell wide at
      least. */
  lemma UncachedDraws(fonts: Fonts, chain: seq<Face>, c: char, cell: Size, cells: nat, glyph: Glyph)
    ensures Uncached(fonts, chain, c, cell, cells) == Some(glyph)
       <==> && cell.width > 0 && cell.height > 0
            && exists i: nat, data :: ClaimsFirst(fonts, chain, c, i) && fonts.mapped(chain[i].path) == Some(data)
                 && fonts.raster(data, chain[i].index, c, cell, if cells > 1 then cells else 1) == Some(glyph)
  {
    ClaimingIsFirst(fonts, chain, c);
    if Uncached(fonts, chain, c, cell, cells) == Some(glyph) {
      var i := Claiming(fonts, chain, c).value;
      assert ClaimsFirst(fonts, chain, c, i) && fonts.mapped(chain[i].path) == Some(fonts.mapped(chain[i].path).value);
    }
  }

  // ---- The cache as a recency list ----

  /** `recency` lists the cached characters, the coldest first. */
  datatype Cache = Cache(cell: Size, source: map<char, Option<nat>>, entries: map<char, Glyph>, recency: seq<char>)

  const EMPTY := Cache(Size(0, 0), map[], map[], [])

  ghost predicate WellFormed(s: Cache, chain: seq<Face>) {
    && (forall c :: c in s.recency <==> c in s.entries)
    && (forall c :: c in s.source && s.source[c].Some? ==> s.source[c].value < |chain|)
  }

  function Total(recency: seq<char>, entries: map<char, Glyph>): nat {
    if recency == [] then 0 else SizeOf(recency[0], entries) + Total(recency[1..], entries)
  }

  function SizeOf(c: char, entries: map<char, Glyph>): nat {
    if c in entries then entries[c].Bytes() else 0
  }

  /** The sizes of the textures themselves. */
  function TextureBytes(recency: seq<char>, entries: map<char, Glyph>): nat {
    if recency == [] then 0
    else (if recency[0] in entries then |entries[recency[0]].texture| else 0) + TextureBytes(recency[1..], entries)
  }

  /** A texture of red, green, blue and alpha bytes for every pixel. */
  predicate IsRgba(g: Glyph) {
    g.width >= 0 && g.height >= 0 && |g.texture| == g.width * g.height * 4
  }

  /** What is held against the budget is the size of the textures. */
  lemma {:induction false} TotalIsTextureBytes(recency: seq<char>, entries: map<char, Glyph>)
    requires forall c :: c in entries ==> IsRgba(entries[c])
    ensures Total(recency, entries) == TextureBytes(recency, entries)
  {
    if recency != [] {
      TotalIsTextureBytes(recency[1..], entries);
    }
  }

  /** Drop from the cold end until the rest fits or one glyph is left. */
  function Fit(recency: seq<char>, entries: map<char, Glyph>, budget: nat): seq<char> {
    if |recency| <= 1 || Total(recency, entries) <= budget then recency
    else Fit(recency[1..], entries, budget)
  }

  /** A suffix that never loses the hottest glyph. */
  lemma {:induction false} FitIsSuffix(recency: seq<char>, entries: map<char, Glyph>, budget: nat)
    ensures var kept := Fit(recency, entries, budget);
            && |kept| <= |recency| && kept == recency[|recency| - |kept|..]
            && (recency != [] ==> kept != [] && kept[|kept| - 1] == recency[|recency| - 1])
  {
    if |recency| > 1 && Total(recency, entries) > budget {
      FitIsSuffix(recency[1..], entries, budget);
    }
  }

  function Restrict(entries: map<char, Glyph>, kept: seq<char>): map<char, Glyph> {
    map c | c in entries && c in kept :: entries[c]
  }

  /** The same eviction, one glyph at a time. */
  function Evicted(recency: seq<char>, entries: map<char, Glyph>, budget: nat): (seq<char>, map<char, Glyph>)
    decreases |recency|
  {
    if |recency| <= 1 || Total(recency, entries) <= budget then (recency, entries)
    else Evicted(recency[1..], entries - {recency[0]}, budget)
  }

  function Resized(s: Cache, cell: Size): Cache {
    if s.cell != cell then Cache(cell, s.source, map[], []) else s
  }

  /** The cache after a fresh glyph went in at the hot end. */
  function Inserted(s: Cache, c: char, index: nat, glyph: Glyph, budget: nat): Cache {
    var left := Evicted(s.recency + [c], s.entries[c := glyph], budget);
    Cache(s.cell, s.source[c := Some(index)], left.1, left.0)
  }

  /** One lookup: the cache afterwards and the glyph it returns. */
  function Lookup(fonts: Fonts, chain: seq<Face>, budget: nat, before: Cache, c: char, cell: Size, cells: nat)
    : (r: (Cache, Option<Glyph>))
    requires WellFormed(before, chain)
  {
    var s := Resized(before, cell);
    if cell.Empty() then (s, None)
    else if c in s.entries then (s.(recency := Touched(s.recency, c)), Some(s.entries[c]))
    else Missed(fonts, chain, budget, s, c, cell, cells)
  }

  /** A lookup that finds no cached glyph. */
  function Missed(fonts: Fonts, chain: seq<Face>, budget: nat, s: Cache, c: char, cell: Size, cells: nat)
    : (Cache, Option<Glyph>)
    requires WellFormed(s, chain)
  {
    if c in s.source && s.source[c].None? then (s, None)
    else
      var index := if c in s.source then s.source[c] else Claiming(fonts, chain, c);
      if index.None? then (s.(source := s.source[c := None]), None)
      else Rendered(fonts, chain, budget, s, c, index.value, cell, AtLeastOne(cells))
  }

  /** A lookup that has to draw the character from face `index`. */
  function Rendered(fonts: Fonts, chain: seq<Face>, budget: nat, s: Cache, c: char, index: nat, cell: Size, cells: nat)
    : (Cache, Option<Glyph>)
    requires index < |chain|
  {
    match fonts.Rasterize(chain[index], c, cell, cells)
    case None => (s.(source := s.source[c := None]), None)
    case Some(glyph) => (Inserted(s, c, index, glyph, budget), Some(glyph))
  }

  function Touched(recency: seq<char>, c: char): seq<char>
    requires c in recency
  {
    RemoveAt(recency, IndexOf(recency, c)) + [c]
  }

  lemma TouchedElements(recency: seq<char>, c: char)
    requires c in recency
    ensures forall k :: k in Touched(recency, c) <==> k in recency
  {
    var i := IndexOf(recency, c);
    assert recency == recency[..i] + [c] + recency[i + 1..];
  }

  lemma TouchedDistinct(recency: seq<char>, c: char)
    requires Distinct(recency) && c in recency
    ensures Distinct(Touched(recency, c))
  {
    var k, t := IndexOf(recency, c), Touched(recency, c);
    assert forall i :: 0 <= i < |t| - 1 ==> t[i] == if i < k then recency[i] else recency[i + 1];
  }

  lemma {:induction false} TotalFrame(recency: seq<char>, a: map<char, Glyph>, b: map<char, Glyph>)
    requires forall c :: c in recency ==> (c in a <==> c in b) && (c in a ==> a[c] == b[c])
    ensures Total(recency, a) == Total(recency, b)
  {
    if recency != [] {
      TotalFrame(recency[1..], a, b);
    }
  }

  lemma {:induction false} TotalConcat(s: seq<char>, t: seq<char>, entries: map<char, Glyph>)
    ensures Total(s + t, entries) == Total(s, entries) + Total(t, entries)
  {
    if s == [] {
      assert s + t == t;
    } else {
      assert (s + t)[1..] == s[1..] + t;
      TotalConcat(s[1..], t, entries);
    }
  }

  lemma {:induction false} FitFrame(recency: seq<char>, a: map<char, Glyph>, b: map<char, Glyph>, budget: nat)
    requires forall c :: c in recency ==> (c in a <==> c in b) && (c in a ==> a[c] == b[c])
    ensures Fit(recency, a, budget) == Fit(recency, b, budget)
  {
    TotalFrame(recency, a, b);
    if |recency| > 1 {
      FitFrame(recency[1..], a, b, budget);
    }
  }

  lemma {:induction false} EvictedIsFit(recency: seq<char>, entries: map<char, Glyph>, budget: nat)
    requires Distinct(recency) && Elements(recency) == entries.Keys
    ensures var kept := Fit(recency, entries, budget);
            Evicted(recency, entries, budget) == (kept, Restrict(entries, kept))
    decreases |recency|
  {
    if |recency| <= 1 || Total(recency, entries) <= budget {
      RestrictAll(recency, entries);
    } else {
      var rest := entries - {recency[0]};
      RestElements(recency);
      EvictedIsFit(recency[1..], rest, budget);
      FitFrame(recency[1..], rest, entries, budget);
      FitIsSuffix(recency[1..], entries, budget);
      RestrictRest(recency, entries, Fit(recency[1..], entries, budget));
    }
  }

  lemma RestElements(recency: seq<char>)
    requires Distinct(recency) && recency != []
    ensures recency[0] !in recency[1..] && Elements(recency) == {recency[0]} + Elements(recency[1..])
  {
    assert recency == [recency[0]] + recency[1..];
  }

  lemma RestrictRest(recency: seq<char>, entries: map<char, Glyph>, kept: seq<char>)
    requires recency != [] && recency[0] !in recency[1..]
    requires |kept| < |recency| && kept == recency[|recency| - |kept|..]
    ensures Restrict(entries - {recency[0]}, kept) == Restrict(entries, kept)
  {
    assert forall c :: c in kept ==> c in recency[1..];
  }

  lemma RestrictAll(recency: seq<char>, entries: map<char, Glyph>)
    requires Elements(recency) == entries.Keys
    ensures Restrict(entries, recency) == entries
  {
    forall c | c in entries
      ensures c in recency
    {
      assert c in Elements(recency);
    }
  }

  /** What survives eviction is within the budget, or is one glyph alone. */
  lemma {:induction false} FitFits(recency: seq<char>, entries: map<char, Glyph>, budget: nat)
    ensures var kept := Fit(recency, entries, budget); Total(kept, entries) <= budget || |kept| <= 1
  {
    if |recency| > 1 && Total(recency, entries) > budget {
      FitFits(recency[1..], entries, budget);
    }
  }

  /** No longer suffix of the recency order would have been within it. */
  lemma {:induction false} LongerSuffixOverflows(recency: seq<char>, entries: map<char, Glyph>, budget: nat, k: nat)
    requires k < |recency| - |Fit(recency, entries, budget)|
    ensures Total(recency[k..], entries) > budget
  {
    if k > 0 {
      LongerSuffixOverflows(recency[1..], entries, budget, k - 1);
      assert recency[1..][k - 1..] == recency[k..];
    } else {
      assert recency[0..] == recency;
    }
  }

  lemma AppendDistinct(s: seq<char>, c: char)
    requires Distinct(s) && c !in s
    ensures Distinct(s + [c]) && Elements(s + [c]) == Elements(s) + {c}
  {}

  lemma {:induction false} EvictedElements(recency: seq<char>, entries: map<char, Glyph>, budget: nat)
    requires Distinct(recency) && recency != [] && forall c :: c in recency <==> c in entries
    ensures var kept, left := Evicted(recency, entries, budget).0, Evicted(recency, entries, budget).1;
            && Distinct(kept) && (forall c :: c in kept <==> c in left)
            && (forall c :: c in left ==> c in entries && left[c] == entries[c])
            && recency[|recency| - 1] in left
    decreases |recency|
  {
    if |recency| > 1 && Total(recency, entries) > budget {
      RestElements(recency);
      var rest := entries - {recency[0]};
      forall c
        ensures c in recency[1..] <==> c in rest
      {
        assert c in recency <==> c in Elements(recency);
      }
      EvictedElements(recency[1..], rest, budget);
    }
  }

  lemma InsertedIsWellFormed(s: Cache, chain: seq<Face>, c: char, index: nat, glyph: Glyph, budget: nat)
    requires WellFormed(s, chain) && Distinct(s.recency) && c !in s.entries && index < |chain|
    ensures var t := Inserted(s, c, index, glyph, budget);
            WellFormed(t, chain) && Distinct(t.recency) && c in t.entries && t.entries[c] == glyph
    ensures forall k :: k in Inserted(s, c, index, glyph, budget).entries && k != c ==>
              k in s.entries && Inserted(s, c, index, glyph, budget).entries[k] == s.entries[k]
  {
    AppendDistinct(s.recency, c);
    EvictedElements(s.recency + [c], s.entries[c := glyph], budget);
  }

  lemma LookupIsWellFormed(fonts: Fonts, chain: seq<Face>, budget: nat, before: Cache, c: char, cell: Size, cells: nat)
    requires WellFormed(before, chain) && Distinct(before.recency)
    ensures var after := Lookup(fonts, chain, budget, before, c, cell, cells).0;
            WellFormed(after, chain) && Distinct(after.recency)
  {
    var s := Resized(before, cell);
    if cell.Empty() {
    } else if c in s.entries {
      TouchedElements(s.recency, c);
      TouchedDistinct(s.recency, c);
    } else if c in s.source && s.source[c].None? {
    } else {
      var index := if c in s.source then s.source[c] else Claiming(fonts, chain, c);
      if index.Some? {
        match fonts.Rasterize(chain[index.value], c, cell, AtLeastOne(cells))
        case None =>
        case Some(glyph) => InsertedIsWellFormed(s, chain, c, index.value, glyph, budget);
      }
    }
  }
}
