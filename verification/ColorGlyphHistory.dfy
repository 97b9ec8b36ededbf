/** What the cache holds, told from the lookups alone: over whole runs it is the
    most recently shown glyphs, as many as fit. */
module ColorGlyphHistory {
  import opened ColorGlyphAgreement
  import opened ColorGlyphCache
  import opened ColorGlyphs
  import opened Options
  import opened Seqs

  /** The glyphs shown since the cell last changed, each once, the one shown last
      at the end, and the characters ever found without artwork. Nothing here
      knows of entries, ticks, eviction or a budget. */
  datatype History = History(cell: Size, shown: seq<char>, pictures: map<char, Glyph>, plain: set<char>)

  const NOTHING := History(Size(0, 0), [], map[], {})

  function MostRecent(shown: seq<char>, c: char): seq<char> {
    if c in shown then Touched(shown, c) else shown + [c]
  }

  /** A new cell size starts over. */
  function Restarted(h: History, cell: Size): History {
    if cell != h.cell then History(cell, [], map[], h.plain) else h
  }

  /** What a request is answered: nothing for a character ever found plain, else
      what an uncached lookup finds. */
  function Answer(fonts: Fonts, chain: seq<Face>, h: History, r: Request): Option<Glyph> {
    if r.c in h.plain then None else Uncached(fonts, chain, r.c, r.cell, r.cells)
  }

  function Next(fonts: Fonts, chain: seq<Face>, h: History, r: Request): History {
    var at := Restarted(h, r.cell);
    if r.cell.Empty() then at
    else
      match Answer(fonts, chain, h, r)
      case None => at.(plain := at.plain + {r.c})
      case Some(glyph) => at.(shown := MostRecent(at.shown, r.c), pictures := at.pictures[r.c := glyph])
  }

  function After(fonts: Fonts, chain: seq<Face>, h: History, requests: seq<Request>): History
    decreases |requests|
  {
    if requests == [] then h else After(fonts, chain, Next(fonts, chain, h, requests[0]), requests[1..])
  }

  /** The cache after a run of requests. */
  ghost function Served(fonts: Fonts, chain: seq<Face>, budget: nat, s: Cache, requests: seq<Request>): (r: Cache)
    requires Ready(s, chain)
    ensures Ready(r, chain)
    decreases |requests|
  {
    if requests == [] then s
    else
      var r := requests[0];
      LookupIsWellFormed(fonts, chain, budget, s, r.c, r.cell, r.cells);
      Served(fonts, chain, budget, Lookup(fonts, chain, budget, s, r.c, r.cell, r.cells).0, requests[1..])
  }

  /** The last element of a front does not fit before the rest. */
  predicate Overflows(front: seq<char>, rest: seq<char>, pictures: map<char, Glyph>, budget: nat) {
    front != [] ==> SizeOf(front[|front| - 1], pictures) + Total(rest, pictures) > budget
  }

  /** `shown` is `front` and then its longest suffix that fits the budget, or its
      last element alone. */
  predicate Cut(shown: seq<char>, front: seq<char>, kept: seq<char>, pictures: map<char, Glyph>, budget: nat) {
    && shown == front + kept && (kept == [] ==> front == [])
    && (Total(kept, pictures) <= budget || |kept| == 1)
    && Overflows(front, kept, pictures, budget)
  }

  /** The cache holds the most recent glyphs of the history, as many as fit. */
  ghost predicate HoldsLatest(s: Cache, h: History, budget: nat) {
    && s.cell == h.cell
    && (exists front :: Cut(h.shown, front, s.recency, h.pictures, budget))
    && (forall c :: c in s.entries <==> c in s.recency)
    && (forall c :: c in s.entries ==> c in h.pictures && s.entries[c] == h.pictures[c])
  }

  /** The memo knows the first claiming face, or that the character is plain. */
  ghost predicate Remembers(fonts: Fonts, chain: seq<Face>, s: Cache, h: History) {
    && (forall c :: c in s.source && s.source[c].Some? ==> ClaimsFirst(fonts, chain, c, s.source[c].value))
    && (forall c :: c in s.source && s.source[c].None? <==> c in h.plain)
  }

  ghost predicate Pictured(fonts: Fonts, chain: seq<Face>, widths: Widths, h: History) {
    && Distinct(h.shown) && (forall c :: c in h.shown <==> c in h.pictures)
    && (forall c :: c in h.pictures ==> c !in h.plain)
    && (forall c, k :: c in h.pictures && widths(c, k) ==> Uncached(fonts, chain, c, h.cell, k) == Some(h.pictures[c]))
  }

  // ---- Suffixes ----

  /** Evicting cuts the order there. */
  lemma {:induction false} FitCuts(recency: seq<char>, pictures: map<char, Glyph>, budget: nat) returns (front: seq<char>)
    ensures Cut(recency, front, Fit(recency, pictures, budget), pictures, budget)
  {
    if |recency| <= 1 || Total(recency, pictures) <= budget {
      front := [];
      assert recency == [] ==> Total(recency, pictures) == 0;
      assert recency == [] + recency;
    } else {
      front := FitCuts(recency[1..], pictures, budget);
      CutFurther(recency[0], recency[1..], front, Fit(recency[1..], pictures, budget), pictures, budget);
      assert recency == [recency[0]] + recency[1..];
      front := [recency[0]] + front;
    }
  }

  lemma CutFurther(x: char, rest: seq<char>, front: seq<char>, kept: seq<char>, pictures: map<char, Glyph>, budget: nat)
    requires rest != [] && Cut(rest, front, kept, pictures, budget)
    requires SizeOf(x, pictures) + Total(rest, pictures) > budget
    ensures Cut([x] + rest, [x] + front, kept, pictures, budget)
  {
    assert [x] + rest == ([x] + front) + kept;
    if front == [] {
      assert rest == kept && [x] + front == [x];
    } else {
      assert ([x] + front)[|front|] == front[|front| - 1];
    }
  }

  lemma TotalOfOne(c: char, pictures: map<char, Glyph>)
    ensures Total([c], pictures) == SizeOf(c, pictures)
  {
    assert [c][1..] == [];
  }

  lemma TouchBehind(front: seq<char>, kept: seq<char>, c: char)
    requires c in kept && Distinct(front + kept)
    ensures c in front + kept && Touched(front + kept, c) == front + Touched(kept, c)
  {
    var all, i := front + kept, IndexOf(kept, c);
    assert all[|front| + i] == c;
    SamePlace(all, IndexOf(all, c), |front| + i);
    assert RemoveAt(all, |front| + i) == front + RemoveAt(kept, i);
  }

  lemma TouchAhead(front: seq<char>, kept: seq<char>, c: char)
    requires c in front && Distinct(front + kept)
    ensures c in front + kept
    ensures Touched(front + kept, c) == RemoveAt(front, IndexOf(front, c)) + (kept + [c])
  {
    var all, i := front + kept, IndexOf(front, c);
    assert all[i] == c;
    SamePlace(all, IndexOf(all, c), i);
    assert RemoveAt(all, i) == RemoveAt(front, i) + kept;
  }

  // ---- One lookup ----

  /** Showing a cached glyph again only moves it to the end. */
  lemma HitCuts(shown: seq<char>, front: seq<char>, kept: seq<char>, pictures: map<char, Glyph>, budget: nat, c: char)
    requires Distinct(shown) && c in kept && Cut(shown, front, kept, pictures, budget)
    ensures c in shown && Cut(Touched(shown, c), front, Touched(kept, c), pictures, budget)
  {
    TouchBehind(front, kept, c);
    TouchTotal(kept, pictures, c);
    assert |Touched(kept, c)| == |kept|;
    assert c in front + kept;
  }

  /** Showing any other puts it behind what was kept, and takes it out of the
      front if it was evicted before. */
  lemma MissAppends(shown: seq<char>, front: seq<char>, kept: seq<char>, pictures: map<char, Glyph>, budget: nat, c: char)
    returns (others: seq<char>)
    requires Distinct(shown) && c !in kept && Cut(shown, front, kept, pictures, budget)
    ensures MostRecent(shown, c) == others + (kept + [c])
    ensures Overflows(others, kept + [c], pictures, budget)
  {
    TotalConcat(kept, [c], pictures);
    TotalOfOne(c, pictures);
    others := front;
    if c in front {
      TouchAhead(front, kept, c);
      var i := IndexOf(front, c);
      others := RemoveAt(front, i);
      if i < |front| - 1 {
        assert others[|front| - 2] == front[|front| - 1];
      }
    } else {
      assert shown + [c] == front + (kept + [c]);
    }
  }

  /** Then room is made at the cold end. */
  lemma CutBehind(others: seq<char>, rest: seq<char>, front: seq<char>, kept: seq<char>, pictures: map<char, Glyph>, budget: nat)
    requires Overflows(others, rest, pictures, budget) && rest != [] && Cut(rest, front, kept, pictures, budget)
    ensures Cut(others + rest, others + front, kept, pictures, budget)
  {
    assert others + rest == (others + front) + kept;
    if front == [] {
      assert others + front == others && rest == kept;
    } else {
      assert (others + front)[|others + front| - 1] == front[|front| - 1];
    }
  }

  /** Cache and history agree. */
  ghost predicate InStep(fonts: Fonts, chain: seq<Face>, budget: nat, widths: Widths, s: Cache, h: History) {
    Remembers(fonts, chain, s, h) && HoldsLatest(s, h, budget) && Pictured(fonts, chain, widths, h)
  }

  /** A lookup answers as the history does, and keeps in step with it. */
  ghost predicate StaysInStep(fonts: Fonts, chain: seq<Face>, budget: nat, widths: Widths, s: Cache, h: History, r: Request)
    requires WellFormed(s, chain)
  {
    var (after, answer) := Lookup(fonts, chain, budget, s, r.c, r.cell, r.cells);
    answer == Answer(fonts, chain, h, r) && InStep(fonts, chain, budget, widths, after, Next(fonts, chain, h, r))
  }

  /** One picture per character and cell is all that takes. */
  lemma LookupHoldsLatest(fonts: Fonts, chain: seq<Face>, budget: nat, widths: Widths, s: Cache, h: History, r: Request)
    requires Ready(s, chain) && WidthFree(fonts, chain, widths) && widths(r.c, r.cells)
    requires InStep(fonts, chain, budget, widths, s, h)
    ensures StaysInStep(fonts, chain, budget, widths, s, h, r)
  {
    var t, at := Resized(s, r.cell), Restarted(h, r.cell);
    ResizedStaysInStep(fonts, chain, budget, widths, s, h, r.cell);
    if !r.cell.Empty() {
      LookupFromHolds(fonts, chain, budget, widths, t, at, r);
      LookupOfResized(fonts, chain, budget, s, h, r);
    }
  }

  lemma LookupOfResized(fonts: Fonts, chain: seq<Face>, budget: nat, s: Cache, h: History, r: Request)
    requires Ready(s, chain)
    ensures Ready(Resized(s, r.cell), chain)
    ensures Lookup(fonts, chain, budget, s, r.c, r.cell, r.cells) == Lookup(fonts, chain, budget, Resized(s, r.cell), r.c, r.cell, r.cells)
    ensures Next(fonts, chain, h, r) == Next(fonts, chain, Restarted(h, r.cell), r)
    ensures Answer(fonts, chain, h, r) == Answer(fonts, chain, Restarted(h, r.cell), r)
  {
  }

  lemma ResizedStaysInStep(fonts: Fonts, chain: seq<Face>, budget: nat, widths: Widths, s: Cache, h: History, cell: Size)
    requires InStep(fonts, chain, budget, widths, s, h)
    ensures InStep(fonts, chain, budget, widths, Resized(s, cell), Restarted(h, cell))
  {
    assert Cut([], [], [], map[], budget);
  }

  lemma LookupFromHolds(fonts: Fonts, chain: seq<Face>, budget: nat, widths: Widths, t: Cache, at: History, r: Request)
    requires Ready(t, chain) && t.cell == r.cell == at.cell && !r.cell.Empty()
    requires WidthFree(fonts, chain, widths) && widths(r.c, r.cells) && InStep(fonts, chain, budget, widths, t, at)
    ensures StaysInStep(fonts, chain, budget, widths, t, at, r)
  {
    LookupAnswers(fonts, chain, budget, widths, t, at, r);
    var answer := Answer(fonts, chain, at, r);
    if answer.None? {
      PlainStaysInStep(fonts, chain, budget, widths, t, at, r);
    } else {
      ShownIsPictured(fonts, chain, widths, at, r, answer.value);
      if r.c in t.entries {
        TouchedHoldsLatest(t, at, budget, r.c);
      } else {
        MissStaysInStep(fonts, chain, budget, widths, t, at, r, answer.value);
      }
    }
  }

  lemma PlainStaysInStep(fonts: Fonts, chain: seq<Face>, budget: nat, widths: Widths, t: Cache, at: History, r: Request)
    requires Ready(t, chain) && t.cell == r.cell == at.cell && !r.cell.Empty() && widths(r.c, r.cells)
    requires InStep(fonts, chain, budget, widths, t, at) && Answer(fonts, chain, at, r).None?
    requires Lookup(fonts, chain, budget, t, r.c, r.cell, r.cells) == (t.(source := t.source[r.c := None]), None)
    ensures StaysInStep(fonts, chain, budget, widths, t, at, r)
  {
    var front :| Cut(at.shown, front, t.recency, at.pictures, budget);
    var after, h := t.(source := t.source[r.c := None]), Next(fonts, chain, at, r);
    assert h == at.(plain := at.plain + {r.c});
    assert Cut(h.shown, front, after.recency, h.pictures, budget);
    assert r.c !in at.pictures;
  }

  lemma MissStaysInStep(fonts: Fonts, chain: seq<Face>, budget: nat, widths: Widths, t: Cache, at: History, r: Request, glyph: Glyph)
    requires Ready(t, chain) && t.cell == r.cell == at.cell && !r.cell.Empty() && r.c !in t.entries
    requires InStep(fonts, chain, budget, widths, t, at) && Answer(fonts, chain, at, r) == Some(glyph)
    requires Lookup(fonts, chain, budget, t, r.c, r.cell, r.cells).1 == Some(glyph)
    requires Pictured(fonts, chain, widths, Next(fonts, chain, at, r)) && (r.c in at.pictures ==> at.pictures[r.c] == glyph)
    ensures StaysInStep(fonts, chain, budget, widths, t, at, r)
  {
    var index := LookupInserts(fonts, chain, budget, t, r, glyph);
    ClaimingIsFirst(fonts, chain, r.c);
    InsertedHoldsLatest(t, chain, at, budget, r.c, index, glyph);
    InsertedRemembers(fonts, chain, budget, t, at, r.c, index, glyph);
  }

  lemma InsertedRemembers(fonts: Fonts, chain: seq<Face>, budget: nat, t: Cache, at: History, c: char, index: nat, glyph: Glyph)
    requires Remembers(fonts, chain, t, at) && ClaimsFirst(fonts, chain, c, index) && c !in at.plain
    ensures Remembers(fonts, chain, Inserted(t, c, index, glyph, budget), at)
  {
  }

  lemma TouchedHoldsLatest(t: Cache, h: History, budget: nat, c: char)
    requires HoldsLatest(t, h, budget) && Distinct(h.shown) && c in t.entries
    ensures c in h.shown && HoldsLatest(t.(recency := Touched(t.recency, c)), h.(shown := Touched(h.shown, c)), budget)
  {
    var front :| Cut(h.shown, front, t.recency, h.pictures, budget);
    HitCuts(h.shown, front, t.recency, h.pictures, budget, c);
    TouchedElements(t.recency, c);
  }

  lemma LookupAnswers(fonts: Fonts, chain: seq<Face>, budget: nat, widths: Widths, t: Cache, at: History, r: Request)
    requires Ready(t, chain) && t.cell == r.cell == at.cell && !r.cell.Empty()
    requires widths(r.c, r.cells) && InStep(fonts, chain, budget, widths, t, at)
    ensures var (after, answer) := Lookup(fonts, chain, budget, t, r.c, r.cell, r.cells);
            && answer == Answer(fonts, chain, at, r)
            && (answer.None? ==> after == t.(source := t.source[r.c := None]))
  {
    ClaimingIsFirst(fonts, chain, r.c);
    if r.c in t.entries {
      assert Uncached(fonts, chain, r.c, at.cell, r.cells) == Some(at.pictures[r.c]);
    } else if r.c in t.source && t.source[r.c].None? {
      assert t.source[r.c := None] == t.source;
    }
  }

  lemma ShownIsPictured(fonts: Fonts, chain: seq<Face>, widths: Widths, h: History, r: Request, glyph: Glyph)
    requires WidthFree(fonts, chain, widths) && widths(r.c, r.cells) && h.cell == r.cell
    requires Pictured(fonts, chain, widths, h) && Answer(fonts, chain, h, r) == Some(glyph)
    ensures Pictured(fonts, chain, widths, h.(shown := MostRecent(h.shown, r.c), pictures := h.pictures[r.c := glyph]))
    ensures r.c in h.pictures ==> h.pictures[r.c] == glyph && h.pictures[r.c := glyph] == h.pictures
  {
    if r.c in h.shown {
      TouchedElements(h.shown, r.c);
      TouchedDistinct(h.shown, r.c);
    } else {
      AppendDistinct(h.shown, r.c);
    }
  }

  lemma LookupInserts(fonts: Fonts, chain: seq<Face>, budget: nat, t: Cache, r: Request, glyph: Glyph) returns (index: nat)
    requires Ready(t, chain) && t.cell == r.cell && r.c !in t.entries
    requires Lookup(fonts, chain, budget, t, r.c, r.cell, r.cells).1 == Some(glyph)
    ensures index < |chain| && Some(index) == (if r.c in t.source then t.source[r.c] else Claiming(fonts, chain, r.c))
    ensures Lookup(fonts, chain, budget, t, r.c, r.cell, r.cells).0 == Inserted(t, r.c, index, glyph, budget)
  {
    index := if r.c in t.source then t.source[r.c].value else Claiming(fonts, chain, r.c).value;
  }

  lemma InsertedHoldsLatest(t: Cache, chain: seq<Face>, h: History, budget: nat, c: char, index: nat, glyph: Glyph)
    requires Ready(t, chain) && index < |chain| && c !in t.entries
    requires HoldsLatest(t, h, budget) && Distinct(h.shown) && forall k :: k in h.shown <==> k in h.pictures
    requires c in h.pictures ==> h.pictures[c] == glyph
    ensures HoldsLatest(Inserted(t, c, index, glyph, budget),
                        h.(shown := MostRecent(h.shown, c), pictures := h.pictures[c := glyph]), budget)
  {
    var cold := InsertedCuts(t, c, index, glyph, h.pictures[c := glyph], budget);
    InsertedIsWellFormed(t, chain, c, index, glyph, budget);
    ShownHoldsLatest(t, Inserted(t, c, index, glyph, budget), h, budget, c, glyph, cold);
  }

  /** Whatever cache has the glyph appended and the order cut holds the latest. */
  lemma ShownHoldsLatest(s: Cache, t: Cache, h: History, budget: nat, c: char, glyph: Glyph, cold: seq<char>)
    requires HoldsLatest(s, h, budget) && Distinct(h.shown) && c !in s.recency && t.cell == s.cell
    requires forall k :: k in h.shown <==> k in h.pictures
    requires c in h.pictures ==> h.pictures[c] == glyph
    requires Cut(s.recency + [c], cold, t.recency, h.pictures[c := glyph], budget)
    requires forall k :: k in t.entries <==> k in t.recency
    requires forall k :: k in t.entries ==> if k == c then t.entries[k] == glyph else k in s.entries && t.entries[k] == s.entries[k]
    ensures HoldsLatest(t, h.(shown := MostRecent(h.shown, c), pictures := h.pictures[c := glyph]), budget)
  {
    var front :| Cut(h.shown, front, s.recency, h.pictures, budget);
    var cut := ShownCuts(h.shown, front, s.recency, h.pictures, h.pictures[c := glyph], budget, c, cold, t.recency);
  }

  lemma ShownCuts(shown: seq<char>, front: seq<char>, kept: seq<char>, before: map<char, Glyph>, pictures: map<char, Glyph>,
                  budget: nat, c: char, cold: seq<char>, left: seq<char>) returns (cut: seq<char>)
    requires Distinct(shown) && c !in kept && Cut(shown, front, kept, before, budget)
    requires forall k :: k in shown ==> k in before && k in pictures && before[k] == pictures[k]
    requires Cut(kept + [c], cold, left, pictures, budget)
    ensures Cut(MostRecent(shown, c), cut, left, pictures, budget)
  {
    CutFrame(shown, front, kept, before, pictures, budget);
    var others := MissAppends(shown, front, kept, pictures, budget, c);
    CutBehind(others, kept + [c], cold, left, pictures, budget);
    cut := others + cold;
  }

  /** Inserting cuts the order behind the new glyph. */
  lemma InsertedCuts(s: Cache, c: char, index: nat, glyph: Glyph, pictures: map<char, Glyph>, budget: nat)
    returns (cold: seq<char>)
    requires Distinct(s.recency) && c !in s.entries && (forall k :: k in s.recency <==> k in s.entries)
    requires c in pictures && pictures[c] == glyph
    requires forall k :: k in s.entries ==> k in pictures && pictures[k] == s.entries[k]
    ensures Cut(s.recency + [c], cold, Inserted(s, c, index, glyph, budget).recency, pictures, budget)
  {
    AppendDistinct(s.recency, c);
    assert Elements(s.recency + [c]) == s.entries[c := glyph].Keys;
    EvictedRecency(s.recency + [c], s.entries[c := glyph], pictures, budget);
    cold := FitCuts(s.recency + [c], pictures, budget);
  }

  lemma CutFrame(shown: seq<char>, front: seq<char>, kept: seq<char>, a: map<char, Glyph>, b: map<char, Glyph>, budget: nat)
    requires Cut(shown, front, kept, a, budget)
    requires forall c :: c in shown ==> c in a && c in b && a[c] == b[c]
    ensures Cut(shown, front, kept, b, budget)
  {
    assert forall c :: c in kept ==> c in shown;
    TotalFrame(kept, a, b);
    if front != [] {
      assert front[|front| - 1] in shown;
    }
  }

  /** Evicting looks at nothing but the sizes of the glyphs in the order. */
  lemma EvictedRecency(recency: seq<char>, entries: map<char, Glyph>, pictures: map<char, Glyph>, budget: nat)
    requires Distinct(recency) && Elements(recency) == entries.Keys
    requires forall k :: k in recency ==> k in entries && k in pictures && pictures[k] == entries[k]
    ensures Evicted(recency, entries, budget).0 == Fit(recency, pictures, budget)
  {
    EvictedIsFit(recency, entries, budget);
    FitFrame(recency, entries, pictures, budget);
  }

  // ---- Whole runs ----

  lemma {:induction false} RunHoldsLatest(fonts: Fonts, chain: seq<Face>, budget: nat, widths: Widths,
                                          s: Cache, h: History, requests: seq<Request>)
    requires Ready(s, chain) && Asked(widths, requests) && WidthFree(fonts, chain, widths)
    requires InStep(fonts, chain, budget, widths, s, h)
    ensures HoldsLatest(Served(fonts, chain, budget, s, requests), After(fonts, chain, h, requests), budget)
    decreases |requests|
  {
    if requests != [] {
      var r := requests[0];
      LookupIsWellFormed(fonts, chain, budget, s, r.c, r.cell, r.cells);
      LookupHoldsLatest(fonts, chain, budget, widths, s, h, r);
      RunHoldsLatest(fonts, chain, budget, widths, Lookup(fonts, chain, budget, s, r.c, r.cell, r.cells).0,
                     Next(fonts, chain, h, r), requests[1..]);
    }
  }

  /** Over every run of lookups, with any cell sizes, the cache ends up holding
      exactly the most recently shown glyphs since the cell last changed: the
      longest such suffix within the budget, or the last glyph alone. Evictions
      on the way never cost it a glyph it should still have. A character's
      picture may depend on the cell, but not on the width asked for. */
  lemma CacheHoldsTheLatest(fonts: Fonts, chain: seq<Face>, budget: nat, widths: Widths, requests: seq<Request>)
    requires Asked(widths, requests) && WidthFree(fonts, chain, widths)
    ensures HoldsLatest(Served(fonts, chain, budget, EMPTY, requests), After(fonts, chain, NOTHING, requests), budget)
  {
    assert Cut([], [], [], map[], budget);
    RunHoldsLatest(fonts, chain, budget, widths, EMPTY, NOTHING, requests);
  }

  /** For the terminal, which asks for each character with one width, that holds
      with whatever fonts. */
  lemma TerminalCacheHoldsTheLatest(fonts: Fonts, chain: seq<Face>, budget: nat, width: char -> nat, requests: seq<Request>)
    requires forall r :: r in requests ==> r.cells == width(r.c)
    ensures HoldsLatest(Served(fonts, chain, budget, EMPTY, requests), After(fonts, chain, NOTHING, requests), budget)
  {
    CacheHoldsTheLatest(fonts, chain, budget, (c: char, k: nat) => k == width(c), requests);
  }

  // ---- What is remembered ----

  /** A character once found without artwork. */
  predicate FoundPlain(s: Cache, c: char) {
    c in s.source && s.source[c].None? && c !in s.entries
  }

  lemma LookupKeepsPlain(fonts: Fonts, chain: seq<Face>, budget: nat, s: Cache, c: char, r: Request)
    requires Ready(s, chain) && FoundPlain(s, c)
    ensures var (after, answer) := Lookup(fonts, chain, budget, s, r.c, r.cell, r.cells);
            FoundPlain(after, c) && (r.c == c ==> answer.None?)
  {
    var t := Resized(s, r.cell);
    var (after, answer) := Lookup(fonts, chain, budget, s, r.c, r.cell, r.cells);
    if r.c != c && r.c !in t.entries && answer.Some? {
      var index := LookupInserts(fonts, chain, budget, t, r, answer.value);
      InsertedIsWellFormed(t, chain, r.c, index, answer.value, budget);
    }
  }

  lemma {:induction false} RunKeepsPlain(fonts: Fonts, chain: seq<Face>, budget: nat, s: Cache, c: char, requests: seq<Request>)
    requires Ready(s, chain) && FoundPlain(s, c)
    ensures FoundPlain(Served(fonts, chain, budget, s, requests), c)
    decreases |requests|
  {
    if requests != [] {
      var r := requests[0];
      LookupIsWellFormed(fonts, chain, budget, s, r.c, r.cell, r.cells);
      LookupKeepsPlain(fonts, chain, budget, s, c, r);
      RunKeepsPlain(fonts, chain, budget, Lookup(fonts, chain, budget, s, r.c, r.cell, r.cells).0, c, requests[1..]);
    }
  }

  /** A character answered with nothing once, in a cell that is not empty, is
      answered with nothing ever after: whatever is asked for in between, and
      whatever the cell becomes. */
  lemma MonochromeIsRemembered(fonts: Fonts, chain: seq<Face>, budget: nat, s: Cache, r: Request,
                               between: seq<Request>, again: Request)
    requires Ready(s, chain) && !r.cell.Empty() && again.c == r.c
    requires Lookup(fonts, chain, budget, s, r.c, r.cell, r.cells).1.None?
    ensures var after := Lookup(fonts, chain, budget, s, r.c, r.cell, r.cells).0;
            Ready(after, chain)
            && Lookup(fonts, chain, budget, Served(fonts, chain, budget, after, between), again.c, again.cell, again.cells).1.None?
  {
    LookupIsWellFormed(fonts, chain, budget, s, r.c, r.cell, r.cells);
    var after := Lookup(fonts, chain, budget, s, r.c, r.cell, r.cells).0;
    RunKeepsPlain(fonts, chain, budget, after, r.c, between);
    LookupKeepsPlain(fonts, chain, budget, Served(fonts, chain, budget, after, between), r.c, again);
  }

  /** A cached glyph is what its character is answered with, at any width, until
      the cell changes or the glyph is evicted. */
  lemma {:induction false} PictureIsRemembered(fonts: Fonts, chain: seq<Face>, budget: nat, s: Cache, c: char, glyph: Glyph,
                                               requests: seq<Request>, cells: nat)
    requires Ready(s, chain) && !s.cell.Empty() && c in s.entries && s.entries[c] == glyph
    requires forall r :: r in requests ==> r.cell == s.cell
    requires forall n :: 0 <= n <= |requests| ==> c in Served(fonts, chain, budget, s, requests[..n]).entries
    ensures Lookup(fonts, chain, budget, Served(fonts, chain, budget, s, requests), c, s.cell, cells).1 == Some(glyph)
    decreases |requests|
  {
    if requests != [] {
      var r := requests[0];
      LookupIsWellFormed(fonts, chain, budget, s, r.c, r.cell, r.cells);
      var after := Lookup(fonts, chain, budget, s, r.c, r.cell, r.cells).0;
      forall n | 0 <= n <= |requests| - 1
        ensures c in Served(fonts, chain, budget, after, requests[1..][..n]).entries
      {
        assert requests[..n + 1][0] == r && requests[..n + 1][1..] == requests[1..][..n];
        assert c in Served(fonts, chain, budget, s, requests[..n + 1]).entries;
      }
      assert requests[1..][..0] == [];
      LookupKeepsPictures(fonts, chain, budget, s, r, c);
      PictureIsRemembered(fonts, chain, budget, after, c, glyph, requests[1..], cells);
    }
  }

  lemma LookupKeepsPictures(fonts: Fonts, chain: seq<Face>, budget: nat, s: Cache, r: Request, c: char)
    requires Ready(s, chain) && r.cell == s.cell && !s.cell.Empty() && c in s.entries
    ensures var after := Lookup(fonts, chain, budget, s, r.c, r.cell, r.cells).0;
            after.cell == s.cell && (c in after.entries ==> after.entries[c] == s.entries[c])
  {
    var (after, answer) := Lookup(fonts, chain, budget, s, r.c, r.cell, r.cells);
    if r.c !in s.entries && answer.Some? {
      var index := LookupInserts(fonts, chain, budget, s, r, answer.value);
      InsertedIsWellFormed(s, chain, r.c, index, answer.value, budget);
    }
  }
}
