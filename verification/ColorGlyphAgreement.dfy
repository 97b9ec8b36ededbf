/** When the cache answers like a lookup without one, over whole runs. */
module ColorGlyphAgreement {
  import opened ColorGlyphs
  import opened Digest
  import opened Options
  import opened Seqs

  datatype Request = Request(c: char, cell: Size, cells: nat)

  /** Which widths, in cells, callers ask for with each character. */
  type Widths = (char, nat) -> bool

  ghost predicate Asked(widths: Widths, requests: seq<Request>) {
    forall r :: r in requests ==> widths(r.c, r.cells)
  }

  ghost predicate Ready(s: Cache, chain: seq<Face>) {
    WellFormed(s, chain) && Distinct(s.recency)
  }

  /** What the cache answers to a run of requests, starting from `s`. */
  ghost function Serve(fonts: Fonts, chain: seq<Face>, budget: nat, s: Cache, requests: seq<Request>): (r: seq<Option<Glyph>>)
    requires Ready(s, chain)
    ensures |r| == |requests|
    decreases |requests|
  {
    if requests == [] then []
    else
      var r := requests[0];
      var after := Lookup(fonts, chain, budget, s, r.c, r.cell, r.cells);
      LookupIsWellFormed(fonts, chain, budget, s, r.c, r.cell, r.cells);
      [after.1] + Serve(fonts, chain, budget, after.0, requests[1..])
  }

  function Answers(fonts: Fonts, chain: seq<Face>, requests: seq<Request>): seq<Option<Glyph>> {
    if requests == [] then []
    else
      [Uncached(fonts, chain, requests[0].c, requests[0].cell, requests[0].cells)]
      + Answers(fonts, chain, requests[1..])
  }

  ghost predicate Agrees(fonts: Fonts, chain: seq<Face>, budget: nat, widths: Widths) {
    forall requests :: Asked(widths, requests) ==>
      Serve(fonts, chain, budget, EMPTY, requests) == Answers(fonts, chain, requests)
  }

  /** Whether a character draws in colour does not depend on the cell size, nor
      on how many of its widths is asked for. */
  ghost predicate SizeFree(fonts: Fonts, chain: seq<Face>, widths: Widths) {
    forall c, a: Size, b: Size, j, k ::
      widths(c, j) && widths(c, k) && !a.Empty() && !b.Empty() ==>
        (Uncached(fonts, chain, c, a, j).Some? <==> Uncached(fonts, chain, c, b, k).Some?)
  }

  /** At one cell size a character has one picture. */
  ghost predicate WidthFree(fonts: Fonts, chain: seq<Face>, widths: Widths) {
    forall c, a: Size, j, k ::
      widths(c, j) && widths(c, k) ==> Uncached(fonts, chain, c, a, j) == Uncached(fonts, chain, c, a, k)
  }

  /** Every memo and every cached glyph is what an uncached lookup finds. */
  ghost predicate Coherent(fonts: Fonts, chain: seq<Face>, widths: Widths, s: Cache) {
    && (forall c :: c in s.source && s.source[c].Some? ==> ClaimsFirst(fonts, chain, c, s.source[c].value))
    && (forall c, a: Size, k :: c in s.source && s.source[c].None? && widths(c, k) ==>
          Uncached(fonts, chain, c, a, k).None?)
    && (forall c, k :: c in s.entries && widths(c, k) && !s.cell.Empty() ==>
          Uncached(fonts, chain, c, s.cell, k) == Some(s.entries[c]))
  }

  /** One lookup on a coherent cache answers like no cache at all, and leaves a
      coherent cache; an index it records is always the first claiming face. */
  lemma LookupAgrees(fonts: Fonts, chain: seq<Face>, budget: nat, widths: Widths, s: Cache, c: char, cell: Size, cells: nat)
    requires Ready(s, chain) && Coherent(fonts, chain, widths, s)
    requires SizeFree(fonts, chain, widths) && WidthFree(fonts, chain, widths) && widths(c, cells)
    ensures Lookup(fonts, chain, budget, s, c, cell, cells).1 == Uncached(fonts, chain, c, cell, cells)
    ensures Coherent(fonts, chain, widths, Lookup(fonts, chain, budget, s, c, cell, cells).0)
  {
    var t := Resized(s, cell);
    ClaimingIsFirst(fonts, chain, c);
    assert Coherent(fonts, chain, widths, t);
    if cell.Empty() || c in t.entries || (c in t.source && t.source[c].None?) {
    } else {
      var index := if c in t.source then t.source[c] else Claiming(fonts, chain, c);
      if index.Some? {
        RenderedAgrees(fonts, chain, budget, widths, t, c, index.value, cells);
      }
    }
  }

  lemma RenderedAgrees(fonts: Fonts, chain: seq<Face>, budget: nat, widths: Widths, s: Cache, c: char, index: nat, cells: nat)
    requires Ready(s, chain) && Coherent(fonts, chain, widths, s) && !s.cell.Empty() && c !in s.entries
    requires SizeFree(fonts, chain, widths) && WidthFree(fonts, chain, widths) && widths(c, cells)
    requires Claiming(fonts, chain, c) == Some(index)
    ensures var r := Rendered(fonts, chain, budget, s, c, index, s.cell, AtLeastOne(cells));
            r.1 == Uncached(fonts, chain, c, s.cell, cells) && Coherent(fonts, chain, widths, r.0)
  {
    ClaimingIsFirst(fonts, chain, c);
    match fonts.Rasterize(chain[index], c, s.cell, AtLeastOne(cells))
    case None =>
      forall a: Size, k | widths(c, k)
        ensures Uncached(fonts, chain, c, a, k).None?
      {
        if !a.Empty() {
          assert Uncached(fonts, chain, c, a, k).Some? <==> Uncached(fonts, chain, c, s.cell, cells).Some?;
        }
      }
    case Some(glyph) =>
      InsertedIsWellFormed(s, chain, c, index, glyph, budget);
  }

  lemma {:induction false} RunAgrees(fonts: Fonts, chain: seq<Face>, budget: nat, widths: Widths, s: Cache, requests: seq<Request>)
    requires Ready(s, chain) && Coherent(fonts, chain, widths, s) && Asked(widths, requests)
    requires SizeFree(fonts, chain, widths) && WidthFree(fonts, chain, widths)
    ensures Serve(fonts, chain, budget, s, requests) == Answers(fonts, chain, requests)
    decreases |requests|
  {
    if requests != [] {
      var r := requests[0];
      LookupAgrees(fonts, chain, budget, widths, s, r.c, r.cell, r.cells);
      LookupIsWellFormed(fonts, chain, budget, s, r.c, r.cell, r.cells);
      RunAgrees(fonts, chain, budget, widths, Lookup(fonts, chain, budget, s, r.c, r.cell, r.cells).0, requests[1..]);
    }
  }

  /** Two lookups of one character, the second possibly answered from memory. */
  lemma ServeTwo(fonts: Fonts, chain: seq<Face>, budget: nat, p: Request, q: Request)
    ensures var first := Lookup(fonts, chain, budget, EMPTY, p.c, p.cell, p.cells);
            && Ready(first.0, chain)
            && Serve(fonts, chain, budget, EMPTY, [p, q])
               == [first.1, Lookup(fonts, chain, budget, first.0, q.c, q.cell, q.cells).1]
    ensures Answers(fonts, chain, [p, q])
         == [Uncached(fonts, chain, p.c, p.cell, p.cells), Uncached(fonts, chain, q.c, q.cell, q.cells)]
  {
    var first := Lookup(fonts, chain, budget, EMPTY, p.c, p.cell, p.cells);
    LookupIsWellFormed(fonts, chain, budget, EMPTY, p.c, p.cell, p.cells);
    var second := Lookup(fonts, chain, budget, first.0, q.c, q.cell, q.cells);
    LookupIsWellFormed(fonts, chain, budget, first.0, q.c, q.cell, q.cells);
    assert [p, q][1..] == [q] && [q][1..] == [];
    assert Serve(fonts, chain, budget, second.0, []) == [];
    assert Serve(fonts, chain, budget, first.0, [q]) == [second.1];
    assert Answers(fonts, chain, [q]) == [Uncached(fonts, chain, q.c, q.cell, q.cells)];
  }

  /** A character found monochrome answers nothing the next time, whatever the
      cell has become. */
  lemma NextAnswerIsNothing(fonts: Fonts, chain: seq<Face>, budget: nat, c: char, a: Size, b: Size, j: nat, k: nat)
    requires !a.Empty() && Uncached(fonts, chain, c, a, j).None?
    ensures Serve(fonts, chain, budget, EMPTY, [Request(c, a, j), Request(c, b, k)])[1].None?
  {
    ServeTwo(fonts, chain, budget, Request(c, a, j), Request(c, b, k));
  }

  /** A glyph just drawn answers for its character at any width asked for. */
  lemma NextAnswerIsThePicture(fonts: Fonts, chain: seq<Face>, budget: nat, c: char, a: Size, j: nat, k: nat)
    requires Uncached(fonts, chain, c, a, j).Some?
    ensures Serve(fonts, chain, budget, EMPTY, [Request(c, a, j), Request(c, a, k)])[1]
         == Uncached(fonts, chain, c, a, j)
  {
    ServeTwo(fonts, chain, budget, Request(c, a, j), Request(c, a, k));
    var index := Claiming(fonts, chain, c).value;
    InsertedIsWellFormed(Resized(EMPTY, a), chain, c, index, Uncached(fonts, chain, c, a, j).value, budget);
  }

  lemma AgreementNeedsSizeFree(fonts: Fonts, chain: seq<Face>, budget: nat, widths: Widths)
    requires Agrees(fonts, chain, budget, widths)
    ensures SizeFree(fonts, chain, widths)
  {
    forall c, a: Size, b: Size, j, k | widths(c, j) && widths(c, k) && !a.Empty() && !b.Empty()
      ensures Uncached(fonts, chain, c, a, j).None? ==> Uncached(fonts, chain, c, b, k).None?
    {
      if Uncached(fonts, chain, c, a, j).None? {
        var run := [Request(c, a, j), Request(c, b, k)];
        assert Asked(widths, run);
        NextAnswerIsNothing(fonts, chain, budget, c, a, b, j, k);
        ServeTwo(fonts, chain, budget, run[0], run[1]);
        assert Serve(fonts, chain, budget, EMPTY, run)[1] == Answers(fonts, chain, run)[1];
      }
    }
  }

  lemma AgreementNeedsWidthFree(fonts: Fonts, chain: seq<Face>, budget: nat, widths: Widths)
    requires Agrees(fonts, chain, budget, widths)
    ensures WidthFree(fonts, chain, widths)
  {
    forall c, a: Size, j, k | widths(c, j) && widths(c, k)
      ensures Uncached(fonts, chain, c, a, j) == Uncached(fonts, chain, c, a, k)
    {
      var run := [Request(c, a, j), Request(c, a, k)];
      assert Asked(widths, run);
      ServeTwo(fonts, chain, budget, run[0], run[1]);
      assert Serve(fonts, chain, budget, EMPTY, run)[1] == Answers(fonts, chain, run)[1];
      if Uncached(fonts, chain, c, a, j).Some? {
        NextAnswerIsThePicture(fonts, chain, budget, c, a, j, k);
      } else if !a.Empty() {
        NextAnswerIsNothing(fonts, chain, budget, c, a, a, j, k);
      }
    }
  }

  /** Over every run of lookups, with any cell sizes and any evictions, the cache
      answers like no cache at all exactly when the fonts let it: whether a
      character has artwork must not depend on the cell size, and its width in
      cells must not change its picture. */
  lemma CacheAgreesExactlyWhen(fonts: Fonts, chain: seq<Face>, budget: nat, widths: Widths)
    ensures Agrees(fonts, chain, budget, widths)
       <==> SizeFree(fonts, chain, widths) && WidthFree(fonts, chain, widths)
  {
    if Agrees(fonts, chain, budget, widths) {
      AgreementNeedsSizeFree(fonts, chain, budget, widths);
      AgreementNeedsWidthFree(fonts, chain, budget, widths);
    }
    if SizeFree(fonts, chain, widths) && WidthFree(fonts, chain, widths) {
      forall requests | Asked(widths, requests)
        ensures Serve(fonts, chain, budget, EMPTY, requests) == Answers(fonts, chain, requests)
      {
        RunAgrees(fonts, chain, budget, widths, EMPTY, requests);
      }
    }
  }

  /** The terminal asks for each character with one width, so for it the cell
      size is all that artwork must not depend on. */
  lemma TerminalCacheAgreesExactlyWhen(fonts: Fonts, chain: seq<Face>, budget: nat, width: char -> nat)
    ensures var widths := (c: char, k: nat) => k == width(c);
            Agrees(fonts, chain, budget, widths) <==> SizeFree(fonts, chain, widths)
  {
    CacheAgreesExactlyWhen(fonts, chain, budget, (c: char, k: nat) => k == width(c));
  }

  /** A font whose artwork exists at one cell height only. */
  function StrikeFonts(): Fonts {
    Fonts(
      (p: string) => Some([]),
      (data: seq<byte>, index: nat, c: char) => true,
      (data: seq<byte>, index: nat, c: char, cell: Size, cells: nat) =>
        if cell.height == 20 then Some(Glyph([], 0, 0, 1, 1)) else None)
  }

  /** Met first at another height, such a glyph is missed for good: without the
      size condition the cache and the plain lookup part ways. */
  lemma ArtworkAtOneSizeIsMissed(budget: nat)
    ensures var run := [Request('x', Size(8, 16), 2), Request('x', Size(10, 20), 2)];
            && Serve(StrikeFonts(), [Face("emoji", 0)], budget, EMPTY, run)[1] == None
            && Uncached(StrikeFonts(), [Face("emoji", 0)], 'x', Size(10, 20), 2).Some?
  {
    var fonts, chain := StrikeFonts(), [Face("emoji", 0)];
    assert Claiming(fonts, chain, 'x') == Some(0);
    NextAnswerIsNothing(fonts, chain, budget, 'x', Size(8, 16), Size(10, 20), 2, 2);
  }
}
