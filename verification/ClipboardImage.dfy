/** Clipboard bitmaps stored under content-addressed names, and the sweep that
    caps how many of them a managed directory keeps. */
module ClipboardImage {
  import opened Digest
  import opened Options
  import opened Seqs
  import opened StableSort

  // ---- File names ----

  const PREFIX := "clipboard-"
  const SUFFIX := ".png"

  function HexDigit(d: nat): char
    requires d < 16
  {
    "0123456789abcdef"[d]
  }

  function HexDigitValue(c: char): int {
    if '0' <= c <= '9' then c as int - '0' as int
    else if 'a' <= c <= 'f' then c as int - 'a' as int + 10
    else if 'A' <= c <= 'F' then c as int - 'A' as int + 10
    else -1
  }

  predicate IsHexDigit(c: char) {
    HexDigitValue(c) >= 0
  }

  /** Lower-case hexadecimal, zero-padded to a width. */
  function Hex(value: nat, digits: nat): (s: string)
    ensures |s| == digits && forall c :: c in s ==> IsHexDigit(c)
  {
    if digits == 0 then "" else Hex(value / 16, digits - 1) + [HexDigit(value % 16)]
  }

  function HexValue(s: string): int {
    if s == "" then 0 else HexValue(s[..|s| - 1]) * 16 + HexDigitValue(s[|s| - 1])
  }

  function FileName(png: seq<byte>): string {
    PREFIX + Hex(DigestOf(png), 16) + SUFFIX
  }

  function StripPrefix(s: string, prefix: string): Option<string> {
    if prefix <= s then Some(s[|prefix|..]) else None
  }

  function StripSuffix(s: string, suffix: string): Option<string> {
    if |suffix| <= |s| && s[|s| - |suffix|..] == suffix then Some(s[..|s| - |suffix|]) else None
  }

  predicate IsGeneratedName(name: string) {
    match StripPrefix(name, PREFIX)
    case None => false
    case Some(rest) =>
      match StripSuffix(rest, SUFFIX)
      case None => false
      case Some(hex) => |hex| == 16 && forall c | c in hex :: IsHexDigit(c)
  }

  function Pow16(n: nat): nat {
    if n == 0 then 1 else 16 * Pow16(n - 1)
  }

  /** Reading the digits back gives the number. */
  lemma {:induction false} HexRoundTrip(value: nat, digits: nat)
    requires value < Pow16(digits)
    ensures HexValue(Hex(value, digits)) == value
  {
    if digits != 0 {
      HexRoundTrip(value / 16, digits - 1);
      var s := Hex(value, digits);
      assert s[..|s| - 1] == Hex(value / 16, digits - 1);
    }
  }

  lemma SixteenDigitsHoldAWord()
    ensures Pow16(16) == WORD
  {
    assert Pow16(4) == 0x1_0000;
    assert Pow16(8) == 0x1_0000_0000 by { assert Pow16(6) == 0x100_0000; }
    assert Pow16(12) == 0x1_0000_0000_0000 by { assert Pow16(10) == 0x100_0000_0000; }
    assert Pow16(14) == 0x100_0000_0000_0000;
  }

  /** A digit of base sixteen, in either case. */
  predicate IsDigit(c: char) {
    '0' <= c <= '9' || 'a' <= c <= 'f' || 'A' <= c <= 'F'
  }

  /** A name is generated exactly when it is sixteen hex digits in the frame. */
  lemma GeneratedNameShape(name: string)
    ensures IsGeneratedName(name) <==>
            exists hex: string :: |hex| == 16 && (forall c :: c in hex ==> IsDigit(c))
                                  && name == "clipboard-" + hex + ".png"
  {
    if IsGeneratedName(name) {
      var rest := name[|PREFIX|..];
      var hex := rest[..|rest| - |SUFFIX|];
      assert name == PREFIX + hex + SUFFIX;
    }
    forall hex: string | |hex| == 16 && (forall c :: c in hex ==> IsDigit(c)) && name == PREFIX + hex + SUFFIX
      ensures IsGeneratedName(name)
    {
      assert name[|PREFIX|..] == hex + SUFFIX;
      assert (hex + SUFFIX)[|hex|..] == SUFFIX && (hex + SUFFIX)[..|hex|] == hex;
    }
  }

  /** A stored name spells the digest in sixteen digits, none upper-case. */
  lemma FileNameSpellsTheDigest(png: seq<byte>)
    ensures exists hex: string ::
              && FileName(png) == "clipboard-" + hex + ".png" && |hex| == 16
              && (forall c :: c in hex ==> '0' <= c <= '9' || 'a' <= c <= 'f')
              && HexValue(hex) == DigestOf(png)
  {
    SixteenDigitsHoldAWord();
    HexRoundTrip(DigestOf(png), 16);
    HexIsLower(DigestOf(png), 16);
  }

  lemma {:induction false} HexIsLower(value: nat, digits: nat)
    ensures forall c :: c in Hex(value, digits) ==> '0' <= c <= '9' || 'a' <= c <= 'f'
  {
    if digits != 0 {
      HexIsLower(value / 16, digits - 1);
    }
  }

  /** Every name `store` can use is one the sweep recognises. */
  lemma FileNameIsGenerated(png: seq<byte>)
    ensures IsGeneratedName(FileName(png))
  {
    GeneratedNameShape(FileName(png));
  }

  /** The name carries the whole digest. */
  lemma FileNameCarriesTheDigest(a: seq<byte>, b: seq<byte>)
    ensures FileName(a) == FileName(b) <==> DigestOf(a) == DigestOf(b)
  {
    SixteenDigitsHoldAWord();
    HexRoundTrip(DigestOf(a), 16);
    HexRoundTrip(DigestOf(b), 16);
    assert FileName(a)[|PREFIX|..|PREFIX| + 16] == Hex(DigestOf(a), 16);
    assert FileName(b)[|PREFIX|..|PREFIX| + 16] == Hex(DigestOf(b), 16);
  }

  /** Screenshots of one size that differ in a single byte get separate files. */
  lemma OneByteChangesTheName(png: seq<byte>, i: nat, b: byte)
    requires i < |png| && png[i] != b
    ensures FileName(png[i := b]) != FileName(png)
  {
    OneByteChangesTheDigest(png, i, b);
    FileNameCarriesTheDigest(png[i := b], png);
  }

  // ---- The directory ----

  datatype File = File(mtime: nat, bytes: seq<byte>)

  type Listing = map<string, File>

  datatype Aged = Aged(when: nat, path: string)

  function NewerFirst(): (Aged, Aged) -> bool {
    (a: Aged, b: Aged) => a.when >= b.when
  }

  predicate Reuses(files: Listing, name: string, len: nat) {
    name in files && |files[name].bytes| == len
  }

  /** The directory after `png` was stored at time `now`. */
  function Stored(files: Listing, png: seq<byte>, now: nat): Listing {
    var name := FileName(png);
    files[name := File(now, if Reuses(files, name, |png|) then files[name].bytes else png)]
  }

  /** The generated files, other than `inUse`, that are older than it. */
  ghost function Older(files: Listing, inUse: string): set<string>
    requires inUse in files
  {
    set n | n in files && IsGeneratedName(n) && n != inUse && files[n].mtime < files[inUse].mtime
  }

  function Others(keep: nat): nat {
    if keep == 0 then 0 else keep - 1
  }

  /** What a sweep may leave behind: it removes nothing but older generated
      files, keeps `keep - 1` of those when there are that many, and never keeps
      one older than one it removes. */
  ghost predicate Capped(before: Listing, keep: nat, inUse: string, after: Listing) {
    if inUse !in before then after == before
    else
      var older := Older(before, inUse);
      && before.Keys - older <= after.Keys <= before.Keys
      && (forall n :: n in after ==> after[n] == before[n])
      && |older * after.Keys| == (if |older| <= Others(keep) then |older| else Others(keep))
      && (forall d, k :: d in before && d !in after && k in older && k in after ==> before[d].mtime <= before[k].mtime)
  }

  ghost predicate Ranks(files: Listing, aged: seq<Aged>) {
    && (forall a :: a in aged ==> a.path in files && a.when == files[a.path].mtime)
    && (forall i, j :: 0 <= i < j < |aged| ==> aged[i].path != aged[j].path)
  }

  ghost function Paths(aged: seq<Aged>): set<string> {
    set a | a in aged :: a.path
  }

  lemma {:induction false} PathCount(aged: seq<Aged>)
    requires forall i, j :: 0 <= i < j < |aged| ==> aged[i].path != aged[j].path
    ensures |Paths(aged)| == |aged|
  {
    if aged != [] {
      var last := |aged| - 1;
      PathCount(aged[..last]);
      assert Paths(aged) == Paths(aged[..last]) + {aged[last].path};
    }
  }

  /** Sorting keeps the ranked paths and puts the newest first. */
  lemma SortingRanks(files: Listing, aged: seq<Aged>)
    requires Ranks(files, aged)
    ensures var s := Sort(aged, NewerFirst());
            && |s| == |aged| && Ranks(files, s) && Paths(s) == Paths(aged)
            && forall i, j :: 0 <= i < j < |s| ==> s[i].when >= s[j].when
  {
    var s := Sort(aged, NewerFirst());
    SortPermutes(aged, NewerFirst());
    SortSorted(aged, NewerFirst());
    SameElements(aged, s);
    DistinctFromMultiset(aged, s);
    assert forall i :: 0 <= i < |s| ==> s[i] in aged;
    assert forall i :: 0 <= i < |aged| ==> aged[i] in s;
    assert |s| == |multiset(s)| == |multiset(aged)| == |aged|;
    forall i, j | 0 <= i < j < |s|
      ensures s[i].path != s[j].path && s[i].when >= s[j].when
    {
      assert NewerFirst()(s[i], s[j]);
      var k := IndexIn(aged, s[i]);
      var l := IndexIn(aged, s[j]);
      assert s[i] != s[j];
    }
  }

  class ImageDir {
    var files: Listing

    constructor (files: Listing)
      ensures this.files == files
    {
      this.files := files;
    }

    /** A file of the right name and length is taken for the image and made the
        newest. */
    method Reusable(name: string, len: nat, now: nat) returns (ok: bool)
      modifies this
      ensures ok == Reuses(old(files), name, len)
      ensures files == if ok then old(files)[name := old(files)[name].(mtime := now)] else old(files)
    {
      if name !in files {
        return false;
      }
      if |files[name].bytes| != len {
        return false;
      }
      files := files[name := files[name].(mtime := now)];
      return true;
    }

    method Store(png: seq<byte>, now: nat) returns (path: string)
      modifies this
      ensures path == FileName(png)
      ensures files == Stored(old(files), png, now)
    {
      path := FileName(png);
      var reusable := Reusable(path, |png|, now);
      if !reusable {
        files := files[path := File(now, png)];
      }
    }

    /** The directory's entries in whatever order the file system lists them. */
    method ReadDir() returns (entries: seq<string>)
      ensures Distinct(entries) && Elements(entries) == files.Keys
    {
      entries := [];
      var left := files.Keys;
      while left != {}
        invariant Distinct(entries) && Elements(entries) !! left
        invariant Elements(entries) + left == files.Keys
        decreases left
      {
        var n :| n in left;
        entries := entries + [n];
        left := left - {n};
      }
    }

    /** Age every generated file that is older than the one in use. */
    method RankOlder(entries: seq<string>, inUse: string) returns (generated: seq<Aged>)
      requires Distinct(entries) && Elements(entries) == files.Keys && inUse in files
      ensures Ranks(files, generated) && Paths(generated) == Older(files, inUse)
    {
      generated := [];
      for i := 0 to |entries|
        invariant Ranks(files, generated)
        invariant Paths(generated) == Older(files, inUse) * Elements(entries[..i])
      {
        var path := entries[i];
        assert path in Elements(entries);
        assert Elements(entries[..i + 1]) == Elements(entries[..i]) + {path};
        if !IsGeneratedName(path) || path == inUse || files[path].mtime >= files[inUse].mtime {
          continue;
        }
        assert path !in Elements(entries[..i]);
        PathsAppend(generated, Aged(files[path].mtime, path));
        generated := generated + [Aged(files[path].mtime, path)];
      }
      assert entries[..|entries|] == entries;
    }

    method ApplyCap(keep: nat, inUse: string)
      modifies this
      ensures Capped(old(files), keep, inUse, files)
    {
      var entries := ReadDir();
      if inUse !in files {
        return;
      }
      var generated := RankOlder(entries, inUse);
      PathCount(generated);
      var others := Others(keep);
      if |generated| <= others {
        NothingToSweep(files, keep, inUse);
        return;
      }
      SortingRanks(files, generated);
      generated := Sort(generated, NewerFirst());
      RemoveAll(generated[others..]);
      SweptTail(old(files), keep, inUse, generated, files);
    }

    method RemoveAll(stale: seq<Aged>)
      modifies this
      ensures files == old(files) - Paths(stale)
    {
      for i := 0 to |stale|
        invariant files == old(files) - Paths(stale[..i])
      {
        assert stale[..i + 1] == stale[..i] + [stale[i]];
        PathsAppend(stale[..i], stale[i]);
        files := files - {stale[i].path};
      }
      assert stale[..|stale|] == stale;
    }
  }

  lemma PathsAppend(aged: seq<Aged>, a: Aged)
    ensures Paths(aged + [a]) == Paths(aged) + {a.path}
  {
    forall p | p in Paths(aged) + {a.path}
      ensures p in Paths(aged + [a])
    {
      if p == a.path {
        assert a in aged + [a];
      } else {
        var b :| b in aged && b.path == p;
        assert b in aged + [a];
      }
    }
  }

  lemma NothingToSweep(files: Listing, keep: nat, inUse: string)
    requires inUse in files && |Older(files, inUse)| <= Others(keep)
    ensures Capped(files, keep, inUse, files)
  {
    assert Older(files, inUse) * files.Keys == Older(files, inUse);
  }

  /** A ranking falls into two parts with no path in common. */
  lemma PathsSplit(files: Listing, ranked: seq<Aged>, k: nat)
    requires k <= |ranked| && Ranks(files, ranked)
    ensures Paths(ranked) == Paths(ranked[..k]) + Paths(ranked[k..])
    ensures Paths(ranked[..k]) !! Paths(ranked[k..])
  {
    assert ranked == ranked[..k] + ranked[k..];
    forall a, b | a in ranked[..k] && b in ranked[k..]
      ensures a.path != b.path
    {
      var i := IndexIn(ranked[..k], a);
      var j := IndexIn(ranked[k..], b);
      assert ranked[i] == a && ranked[k + j] == b;
    }
  }

  /** Removing everything past the first `others` ranks is what a sweep may do. */
  lemma SweptTail(before: Listing, keep: nat, inUse: string, ranked: seq<Aged>, after: Listing)
    requires inUse in before && Others(keep) < |ranked| && Ranks(before, ranked)
    requires Paths(ranked) == Older(before, inUse)
    requires forall i, j :: 0 <= i < j < |ranked| ==> ranked[i].when >= ranked[j].when
    requires after == before - Paths(ranked[Others(keep)..])
    ensures Capped(before, keep, inUse, after)
  {
    var older, others := Older(before, inUse), Others(keep);
    SplitAtTheCap(before, ranked, others, older, after);
    forall d, k | d in before && d !in after && k in older && k in after
      ensures before[d].mtime <= before[k].mtime
    {
      TailIsOlder(before, ranked, others, d, k);
    }
  }

  lemma SplitAtTheCap(before: Listing, ranked: seq<Aged>, others: nat, older: set<string>, after: Listing)
    requires others <= |ranked| && Ranks(before, ranked) && Paths(ranked) == older <= before.Keys
    requires after == before - Paths(ranked[others..])
    ensures older * after.Keys == Paths(ranked[..others])
    ensures before.Keys - older <= after.Keys
    ensures |older| == |ranked| && |Paths(ranked[..others])| == others
    ensures before.Keys - after.Keys <= Paths(ranked[others..])
  {
    PathsSplit(before, ranked, others);
    TailGone(before.Keys, older, Paths(ranked[..others]), Paths(ranked[others..]), after.Keys);
    RanksCount(before, ranked, others);
  }

  lemma RanksCount(files: Listing, ranked: seq<Aged>, others: nat)
    requires others <= |ranked| && Ranks(files, ranked)
    ensures |Paths(ranked)| == |ranked| && |Paths(ranked[..others])| == others
  {
    PathCount(ranked);
    PathCount(ranked[..others]);
  }

  lemma TailGone(all: set<string>, older: set<string>, kept: set<string>, swept: set<string>, left: set<string>)
    requires older == kept + swept && kept !! swept && older <= all && left == all - swept
    ensures older * left == kept && all - older <= left && all - left <= swept
  {
  }

  lemma TailIsOlder(files: Listing, ranked: seq<Aged>, others: nat, d: string, k: string)
    requires others <= |ranked| && Ranks(files, ranked)
    requires forall i, j :: 0 <= i < j < |ranked| ==> ranked[i].when >= ranked[j].when
    requires d in Paths(ranked[others..]) && k in Paths(ranked[..others])
    ensures d in files && k in files && files[d].mtime <= files[k].mtime
  {
    var a :| a in ranked[others..] && a.path == d;
    var b :| b in ranked[..others] && b.path == k;
    var i := IndexIn(ranked[others..], a);
    var j := IndexIn(ranked[..others], b);
    assert ranked[others + i] == a && ranked[j] == b;
    assert a in ranked && b in ranked;
  }
}
