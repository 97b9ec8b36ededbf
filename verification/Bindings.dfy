/** Key bindings: what a configuration binds, how it replaces the defaults, and
    which bindings a key press fires. */
module Bindings {
  import opened Options
  import opened Escapes

  // ---- Modifiers ----

  datatype Modifiers = Modifiers(alt: bool, ctrl: bool, shift: bool, command: bool)

  const NONE := Modifiers(false, false, false, false)

  /** Alt and Shift match exactly; Control and Command only where the binding
      names them, and a binding naming neither refuses both. */
  predicate Fires(press: Modifiers, required: Modifiers) {
    if press.alt != required.alt || press.shift != required.shift then false
    else if !required.ctrl && !required.command then !press.ctrl && !press.command
    else (press.ctrl || !required.ctrl) && (press.command || !required.command)
  }

  /** A press tells modifiers apart exactly when it does not carry both Control
      and Command. */
  lemma OneTriggerExactlyWhen(press: Modifiers)
    ensures (forall a, b :: Fires(press, a) && Fires(press, b) ==> a == b)
       <==> !(press.ctrl && press.command)
  {
    var ctrl, command := press.(command := false), press.(ctrl := false);
    assert press.ctrl && press.command ==> Fires(press, ctrl) && Fires(press, command) && ctrl != command;
  }

  /** Where every Control raises Command and no binding names Command, exactly
      the press's own modifiers fire. */
  lemma ExactModifiersFire(press: Modifiers, required: Modifiers)
    requires press.command == press.ctrl && !required.command
    ensures Fires(press, required) <==> required == press.(command := false)
  {
  }

  // ---- The modifiers a binding names ----

  /** White space in the Unicode sense. */
  predicate IsSpace(c: char) {
    || '\U{9}' <= c <= '\U{d}'
    || c in {' ', '\U{85}', '\U{a0}', '\U{1680}', '\U{2028}', '\U{2029}', '\U{202f}', '\U{205f}', '\U{3000}'}
    || '\U{2000}' <= c <= '\U{200a}'
  }

  function TrimStart(s: string): string {
    if s != [] && IsSpace(s[0]) then TrimStart(s[1..]) else s
  }

  function TrimEnd(s: string): string {
    if s != [] && IsSpace(s[|s| - 1]) then TrimEnd(s[..|s| - 1]) else s
  }

  function Trim(s: string): string {
    TrimEnd(TrimStart(s))
  }

  /** The pieces between bars. */
  function Split(s: string): (pieces: seq<string>)
    ensures pieces != []
  {
    if s == [] then [[]]
    else
      var rest := Split(s[1..]);
      if s[0] == '|' then [[]] + rest else [[s[0]] + rest[0]] + rest[1..]
  }

  function Joined(pieces: seq<string>): string
    requires pieces != []
  {
    if |pieces| == 1 then pieces[0] else pieces[0] + "|" + Joined(pieces[1..])
  }

  /** Splitting loses nothing, and leaves no bar in a piece. */
  lemma {:induction false} SplitThenJoin(s: string)
    ensures Joined(Split(s)) == s && NoBars(Split(s))
  {
    if s != [] {
      SplitThenJoin(s[1..]);
      var rest := Split(s[1..]);
      assert s == [s[0]] + s[1..];
      if s[0] == '|' {
        assert ([[]] + rest)[1..] == rest;
      } else {
        WithFirst(s[0], rest);
      }
    }
  }

  /** A character in front lengthens the first piece. */
  lemma WithFirst(c: char, pieces: seq<string>)
    requires pieces != []
    ensures Joined([[c] + pieces[0]] + pieces[1..]) == [c] + Joined(pieces)
  {
    var first: string := [c] + pieces[0];
    assert ([first] + pieces[1..])[1..] == pieces[1..];
    if |pieces| > 1 {
      assert first + "|" + Joined(pieces[1..]) == [c] + (pieces[0] + "|" + Joined(pieces[1..]));
    }
  }

  ghost predicate NoBars(pieces: seq<string>) {
    forall i :: 0 <= i < |pieces| ==> '|' !in pieces[i]
  }

  const CTRL := {"Control", "Ctrl"}
  const SHIFT := {"Shift"}
  const ALT := {"Alt", "Option"}
  const COMMAND := {"Super", "Command", "Meta"}

  predicate Mentions(pieces: seq<string>, names: set<string>) {
    exists i :: 0 <= i < |pieces| && Trim(pieces[i]) in names
  }

  lemma MentionsOneMore(pieces: seq<string>, i: nat, names: set<string>)
    requires i < |pieces|
    ensures Mentions(pieces[..i + 1], names) <==> Mentions(pieces[..i], names) || Trim(pieces[i]) in names
  {
    assert forall k :: 0 <= k < i ==> pieces[..i + 1][k] == pieces[..i][k];
    assert pieces[..i + 1][i] == pieces[i];
  }

  /** The modifiers named between bars, in any order and spacing. Off macOS a
      chord naming the command key cannot be bound. */
  function ModsOf(s: string, mac: bool): Option<Modifiers> {
    var pieces := Split(s);
    if !mac && Mentions(pieces, COMMAND) then None
    else Some(Modifiers(Mentions(pieces, ALT), Mentions(pieces, CTRL),
                        Mentions(pieces, SHIFT), Mentions(pieces, COMMAND)))
  }

  method ParseMods(s: string, mac: bool) returns (mods: Option<Modifiers>)
    ensures mods == ModsOf(s, mac)
  {
    var pieces, m := Split(s), NONE;
    for i := 0 to |pieces|
      invariant m == Modifiers(Mentions(pieces[..i], ALT), Mentions(pieces[..i], CTRL),
                               Mentions(pieces[..i], SHIFT), Mentions(pieces[..i], COMMAND))
    {
      MentionsOneMore(pieces, i, ALT);
      MentionsOneMore(pieces, i, CTRL);
      MentionsOneMore(pieces, i, SHIFT);
      MentionsOneMore(pieces, i, COMMAND);
      m := WithToken(m, Trim(pieces[i]));
    }
    assert pieces[..|pieces|] == pieces;
    mods := if !mac && m.command then None else Some(m);
  }

  /** A name raises its modifier; an unknown one changes nothing. */
  function WithToken(m: Modifiers, token: string): (r: Modifiers)
    ensures r == Modifiers(m.alt || token in ALT, m.ctrl || token in CTRL,
                           m.shift || token in SHIFT, m.command || token in COMMAND)
  {
    match token
    case "Control" => m.(ctrl := true)
    case "Ctrl" => m.(ctrl := true)
    case "Shift" => m.(shift := true)
    case "Alt" => m.(alt := true)
    case "Option" => m.(alt := true)
    case "Super" => m.(command := true)
    case "Command" => m.(command := true)
    case "Meta" => m.(command := true)
    case _ => m
  }

  // ---- Every set of modifiers can be written ----

  /** One name for each modifier of the set. */
  function NamesOf(m: Modifiers): seq<string> {
    (if m.alt then ["Alt"] else []) + (if m.ctrl then ["Control"] else [])
    + (if m.shift then ["Shift"] else []) + (if m.command then ["Super"] else [])
  }

  function Written(m: Modifiers): string {
    if NamesOf(m) == [] then "" else Joined(NamesOf(m))
  }

  lemma {:induction false} SplitPiece(piece: string, rest: string)
    requires '|' !in piece
    ensures Split(piece) == [piece]
    ensures Split(piece + "|" + rest) == [piece] + Split(rest)
  {
    if piece == [] {
      assert ("|" + rest)[1..] == rest && piece + "|" + rest == "|" + rest;
    } else {
      assert piece == [piece[0]] + piece[1..];
      assert (piece + "|" + rest)[0] == piece[0] && (piece + "|" + rest)[1..] == piece[1..] + "|" + rest;
      SplitPiece(piece[1..], rest);
    }
  }

  /** Joining with bars is undone by splitting, when no piece has one. */
  lemma {:induction false} JoinThenSplit(pieces: seq<string>)
    requires pieces != [] && NoBars(pieces)
    ensures Split(Joined(pieces)) == pieces
  {
    if |pieces| == 1 {
      SplitPiece(pieces[0], "");
    } else {
      JoinThenSplit(pieces[1..]);
      SplitPiece(pieces[0], Joined(pieces[1..]));
      assert pieces == [pieces[0]] + pieces[1..];
    }
  }

  lemma TrimKeeps(s: string)
    requires s == [] || (!IsSpace(s[0]) && !IsSpace(s[|s| - 1]))
    ensures Trim(s) == s
  {
  }

  lemma NamesAre(m: Modifiers)
    ensures NoBars(NamesOf(m)) && forall piece :: piece in NamesOf(m) ==> Trim(piece) == piece
    ensures "Alt" in NamesOf(m) <==> m.alt
    ensures "Control" in NamesOf(m) <==> m.ctrl
    ensures "Shift" in NamesOf(m) <==> m.shift
    ensures "Super" in NamesOf(m) <==> m.command
    ensures forall piece :: piece in NamesOf(m) ==> piece in ["Alt", "Control", "Shift", "Super"]
  {
    TrimKeeps("Alt");
    TrimKeeps("Control");
    TrimKeeps("Shift");
    TrimKeeps("Super");
  }

  lemma MentionsWritten(pieces: seq<string>, names: set<string>)
    requires forall piece :: piece in pieces ==> Trim(piece) == piece
    ensures Mentions(pieces, names) <==> exists name :: name in names && name in pieces
  {
    if name :| name in names && name in pieces {
      var i :| 0 <= i < |pieces| && pieces[i] == name;
      assert Trim(pieces[i]) in names;
    }
    if Mentions(pieces, names) {
      var i :| 0 <= i < |pieces| && Trim(pieces[i]) in names;
      assert pieces[i] in pieces && Trim(pieces[i]) == pieces[i];
    }
  }

  /** Every set of modifiers can be written, and means itself; off macOS, unless
      it holds Command. */
  lemma EverySetCanBeWritten(m: Modifiers, mac: bool)
    ensures ModsOf(Written(m), mac) == if m.command && !mac then None else Some(m)
  {
    var names := NamesOf(m);
    NamesAre(m);
    var pieces := if names == [] then [""] else names;
    if names == [] {
      TrimKeeps("");
    } else {
      JoinThenSplit(names);
    }
    assert Split(Written(m)) == pieces;
    PiecesMention(m, pieces);
  }

  lemma PiecesMention(m: Modifiers, pieces: seq<string>)
    requires pieces == if NamesOf(m) == [] then [""] else NamesOf(m)
    ensures Mentions(pieces, ALT) <==> m.alt
    ensures Mentions(pieces, CTRL) <==> m.ctrl
    ensures Mentions(pieces, SHIFT) <==> m.shift
    ensures Mentions(pieces, COMMAND) <==> m.command
  {
    NamesAre(m);
    TrimKeeps("");
    forall piece | piece in pieces
      ensures Trim(piece) == piece && NamesOne(piece)
    {
      ChosenNames(piece);
    }
    MentionsOne(pieces, ALT, "Alt");
    MentionsOne(pieces, CTRL, "Control");
    MentionsOne(pieces, SHIFT, "Shift");
    MentionsOne(pieces, COMMAND, "Super");
  }

  /** The piece is the chosen name of any set it is in. */
  ghost predicate NamesOne(piece: string) {
    && (piece in ALT ==> piece == "Alt") && (piece in CTRL ==> piece == "Control")
    && (piece in SHIFT ==> piece == "Shift") && (piece in COMMAND ==> piece == "Super")
  }

  lemma ChosenNames(piece: string)
    requires piece in ["", "Alt", "Control", "Shift", "Super"]
    ensures NamesOne(piece)
  {
  }

  lemma MentionsOne(pieces: seq<string>, names: set<string>, name: string)
    requires name in names
    requires forall piece :: piece in pieces ==> Trim(piece) == piece && (piece in names ==> piece == name)
    ensures Mentions(pieces, names) <==> name in pieces
  {
    MentionsWritten(pieces, names);
  }

  // ---- Names between bars, in any spacing ----

  predicate Blank(s: string) {
    forall i :: 0 <= i < |s| ==> IsSpace(s[i])
  }

  /** Neither begins nor ends with white space. */
  predicate IsTrimmed(s: string) {
    s == [] || (!IsSpace(s[0]) && !IsSpace(s[|s| - 1]))
  }

  /** Trimming takes the white space around a text, and no more. */
  lemma {:induction false} TrimTakesTheBlanks(before: string, s: string, behind: string)
    requires Blank(before) && IsTrimmed(s) && Blank(behind)
    ensures Trim(before + s + behind) == s
  {
    if before != [] {
      assert (before + s + behind)[1..] == before[1..] + s + behind;
      TrimTakesTheBlanks(before[1..], s, behind);
    } else if s == [] {
      BlankStart(behind);
      assert before + s + behind == behind;
    } else {
      assert before + s + behind == s + behind && (s + behind)[0] == s[0];
      TrimEndTakesTheBlanks(s, behind);
    }
  }

  lemma {:induction false} BlankStart(s: string)
    requires Blank(s)
    ensures TrimStart(s) == []
  {
    if s != [] {
      BlankStart(s[1..]);
    }
  }

  lemma {:induction false} TrimEndTakesTheBlanks(s: string, behind: string)
    requires IsTrimmed(s) && Blank(behind)
    ensures TrimEnd(s + behind) == s
  {
    if behind == [] {
      assert s + behind == s;
    } else {
      assert (s + behind)[..|s + behind| - 1] == s + behind[..|behind| - 1];
      TrimEndTakesTheBlanks(s, behind[..|behind| - 1]);
    }
  }

  /** A name with white space around it. */
  datatype Spaced = Spaced(before: string, name: string, behind: string) {
    predicate Valid() {
      Blank(before) && IsTrimmed(name) && '|' !in name && Blank(behind)
    }

    function Text(): string { before + name + behind }
  }

  function Texts(words: seq<Spaced>): (r: seq<string>)
    ensures |r| == |words| && forall i :: 0 <= i < |r| ==> r[i] == words[i].Text()
  {
    if words == [] then [] else [words[0].Text()] + Texts(words[1..])
  }

  ghost predicate Names(words: seq<Spaced>, name: string) {
    exists i :: 0 <= i < |words| && words[i].name == name
  }

  /** Any names between bars, in any order and spacing, raise exactly their own
      modifiers, and nothing is bound off macOS when one is the command key's. */
  lemma SpacedNamesMean(words: seq<Spaced>, mac: bool)
    requires words != [] && forall i :: 0 <= i < |words| ==> words[i].Valid()
    ensures var command := Names(words, "Super") || Names(words, "Command") || Names(words, "Meta");
            ModsOf(Joined(Texts(words)), mac)
            == if command && !mac then None
               else Some(Modifiers(Names(words, "Alt") || Names(words, "Option"),
                                   Names(words, "Control") || Names(words, "Ctrl"), Names(words, "Shift"), command))
  {
    var texts := Texts(words);
    forall i | 0 <= i < |texts|
      ensures '|' !in texts[i] && Trim(texts[i]) == words[i].name
    {
      TrimTakesTheBlanks(words[i].before, words[i].name, words[i].behind);
      BlankHasNoBar(words[i].before);
      BlankHasNoBar(words[i].behind);
    }
    JoinThenSplit(texts);
    RaisedNames(words, texts);
  }

  lemma RaisedNames(words: seq<Spaced>, texts: seq<string>)
    requires |texts| == |words| && forall i :: 0 <= i < |texts| ==> Trim(texts[i]) == words[i].name
    ensures Mentions(texts, ALT) <==> Names(words, "Alt") || Names(words, "Option")
    ensures Mentions(texts, CTRL) <==> Names(words, "Control") || Names(words, "Ctrl")
    ensures Mentions(texts, SHIFT) <==> Names(words, "Shift")
    ensures Mentions(texts, COMMAND) <==> Names(words, "Super") || Names(words, "Command") || Names(words, "Meta")
  {
    MentionsTheNames(words, texts, ALT);
    MentionsTheNames(words, texts, CTRL);
    MentionsTheNames(words, texts, SHIFT);
    MentionsTheNames(words, texts, COMMAND);
  }

  lemma BlankHasNoBar(s: string)
    requires Blank(s)
    ensures '|' !in s
  {
  }

  lemma MentionsTheNames(words: seq<Spaced>, texts: seq<string>, names: set<string>)
    requires |texts| == |words| && forall i :: 0 <= i < |texts| ==> Trim(texts[i]) == words[i].name
    ensures Mentions(texts, names) <==> exists name :: name in names && Names(words, name)
  {
    if Mentions(texts, names) {
      var i :| 0 <= i < |texts| && Trim(texts[i]) in names;
      assert Names(words, words[i].name);
    }
    if name :| name in names && Names(words, name) {
      var i :| 0 <= i < |words| && words[i].name == name;
      assert Trim(texts[i]) in names;
    }
  }

  // ---- Configured bindings ----

  type Key = nat

  datatype Action = Chars(text: string) | NamedAction(name: string) | Unsupported(name: string)

  datatype KeyBinding = KeyBinding(key: Key, mods: Modifiers, action: Action)

  /** A configuration entry; a command's contents do not matter. */
  datatype RawBinding = RawBinding(
    key: string, mods: Option<string>, mode: Option<string>,
    chars: Option<string>, action: Option<string>, hasCommand: bool)

  /** The key and action tables, taken as given. */
  datatype Tables = Tables(keyOf: string -> Option<Key>, actionOf: string -> Action, defaults: seq<KeyBinding>)

  function RawMods(r: RawBinding, mac: bool): Option<Modifiers> {
    if r.mods.None? then Some(NONE) else ModsOf(r.mods.value, mac)
  }

  function RawAction(r: RawBinding, t: Tables): Option<Action> {
    if r.chars.Some? then Some(Chars(Decode(r.chars.value)))
    else if r.action.Some? then Some(t.actionOf(r.action.value))
    else if r.hasCommand then Some(Unsupported("command"))
    else None
  }

  /** What one entry binds; nothing with a mode, an unknown key, modifiers the
      platform lacks, or nothing to do. */
  function Bound(r: RawBinding, t: Tables, mac: bool): Option<KeyBinding> {
    var key, mods, action := t.keyOf(r.key), RawMods(r, mac), RawAction(r, t);
    if r.mode.Some? || key.None? || mods.None? || action.None? then None
    else Some(KeyBinding(key.value, mods.value, action.value))
  }

  function UserBindings(raw: seq<RawBinding>, t: Tables, mac: bool): seq<KeyBinding> {
    if raw == [] then []
    else
      var last := Bound(raw[|raw| - 1], t, mac);
      UserBindings(raw[..|raw| - 1], t, mac) + if last.Some? then [last.value] else []
  }

  /** What one entry binds, exactly: it has no mode, its key is known, its modifiers
      are none or ones the platform has, and it sends its text, or without one does
      the action it names, or without either runs its command. */
  lemma EntryBindsExactlyWhen(r: RawBinding, t: Tables, mac: bool, b: KeyBinding)
    ensures UserBindings([r], t, mac) == [b] <==>
      && r.mode.None? && t.keyOf(r.key) == Some(b.key)
      && (if r.mods.None? then b.mods == Modifiers(false, false, false, false) else ModsOf(r.mods.value, mac) == Some(b.mods))
      && (|| (r.chars.Some? && b.action == Chars(Decode(r.chars.value)))
          || (r.chars.None? && r.action.Some? && b.action == t.actionOf(r.action.value))
          || (r.chars.None? && r.action.None? && r.hasCommand && b.action == Unsupported("command")))
    ensures |UserBindings([r], t, mac)| <= 1
  {
    OneEntry(r, t, mac);
    if UserBindings([r], t, mac) == [b] {
      assert UserBindings([r], t, mac)[0] == b;
    }
  }

  lemma OneEntry(r: RawBinding, t: Tables, mac: bool)
    ensures UserBindings([r], t, mac) == if Bound(r, t, mac).Some? then [Bound(r, t, mac).value] else []
  {
    assert [r][..0] == [];
  }

  /** However its text is spelled, an entry sends the text, whatever else it names. */
  lemma SpelledTextIsSent(r: RawBinding, t: Tables, mac: bool, texts: seq<string>, s: string)
    requires Spelling(texts, s) && r.chars == Some(Flattened(texts))
    ensures forall b :: b in UserBindings([r], t, mac) ==> b.action == Chars(s)
  {
    OneEntry(r, t, mac);
    DecodeUndoesSpelling(texts, s);
  }

  predicate SameTrigger(a: KeyBinding, b: KeyBinding) {
    a.key == b.key && a.mods == b.mods
  }

  /** A default stays unless some entry has exactly its trigger. */
  predicate Stays(d: KeyBinding, user: seq<KeyBinding>) {
    forall i :: 0 <= i < |user| ==> !SameTrigger(user[i], d)
  }

  function Kept(defaults: seq<KeyBinding>, user: seq<KeyBinding>): seq<KeyBinding> {
    if defaults == [] then []
    else (if Stays(defaults[0], user) then [defaults[0]] else []) + Kept(defaults[1..], user)
  }

  function Merged(user: seq<KeyBinding>, defaults: seq<KeyBinding>): seq<KeyBinding> {
    user + Kept(defaults, user)
  }

  /** The bindings of a configuration, over the defaults they leave. */
  method ParseBindings(raw: seq<RawBinding>, t: Tables, mac: bool) returns (out: seq<KeyBinding>)
    ensures out == Merged(UserBindings(raw, t, mac), t.defaults)
  {
    out := [];
    for i := 0 to |raw|
      invariant out == UserBindings(raw[..i], t, mac)
    {
      assert raw[..i + 1][..i] == raw[..i];
      var r := raw[i];
      if r.mode.Some? {
        continue;
      }
      var key := t.keyOf(r.key);
      if key.None? {
        continue;
      }
      var mods: Option<Modifiers> := Some(NONE);
      if r.mods.Some? {
        mods := ParseMods(r.mods.value, mac);
      }
      if mods.None? {
        continue;
      }
      var action: Action;
      if r.chars.Some? {
        var text := Unescape(r.chars.value);
        action := Chars(text);
      } else if r.action.Some? {
        action := t.actionOf(r.action.value);
      } else if r.hasCommand {
        action := Unsupported("command");
      } else {
        continue;
      }
      out := out + [KeyBinding(key.value, mods.value, action)];
    }
    assert raw[..|raw|] == raw;
    out := out + Kept(t.defaults, out);
  }

  // ---- What a press runs ----

  predicate FiresOn(key: Key, press: Modifiers, b: KeyBinding) {
    b.key == key && Fires(press, b.mods)
  }

  /** The bindings a press runs, in order. */
  function Matches(bindings: seq<KeyBinding>, key: Key, press: Modifiers): seq<KeyBinding> {
    if bindings == [] then []
    else (if FiresOn(key, press, bindings[0]) then [bindings[0]] else []) + Matches(bindings[1..], key, press)
  }

  lemma {:induction false} MatchesConcat(a: seq<KeyBinding>, b: seq<KeyBinding>, key: Key, press: Modifiers)
    ensures Matches(a + b, key, press) == Matches(a, key, press) + Matches(b, key, press)
  {
    if a == [] {
      assert a + b == b;
    } else {
      assert (a + b)[1..] == a[1..] + b;
      MatchesConcat(a[1..], b, key, press);
    }
  }

  lemma {:induction false} MatchesAre(bindings: seq<KeyBinding>, key: Key, press: Modifiers)
    ensures forall b :: b in Matches(bindings, key, press) <==> b in bindings && FiresOn(key, press, b)
  {
    if bindings != [] {
      MatchesAre(bindings[1..], key, press);
    }
  }

  /** Whatever a press fires among two lists has one set of modifiers. */
  ghost predicate OneTrigger(user: seq<KeyBinding>, defaults: seq<KeyBinding>, press: Modifiers) {
    forall u, d :: u in user && d in defaults && Fires(press, u.mods) && Fires(press, d.mods) ==> u.mods == d.mods
  }

  /** A default a press fires is left exactly when the press fires nothing of
      the user's. */
  lemma StaysExactlyWhen(d: KeyBinding, user: seq<KeyBinding>, key: Key, press: Modifiers)
    requires FiresOn(key, press, d) && OneTrigger(user, [d], press)
    ensures Stays(d, user) <==> Matches(user, key, press) == []
  {
    MatchesAre(user, key, press);
    assert d in [d];
    if Matches(user, key, press) != [] {
      var u := Matches(user, key, press)[0];
      assert u in user && FiresOn(key, press, u);
      var i :| 0 <= i < |user| && user[i] == u;
      assert SameTrigger(user[i], d);
    }
  }

  lemma {:induction false} DefaultsGiveWay(user: seq<KeyBinding>, defaults: seq<KeyBinding>, key: Key, press: Modifiers)
    requires OneTrigger(user, defaults, press)
    ensures Matches(Kept(defaults, user), key, press)
         == if Matches(user, key, press) == [] then Matches(defaults, key, press) else []
  {
    if defaults != [] {
      var d, rest := defaults[0], defaults[1..];
      DefaultsGiveWay(user, rest, key, press);
      MatchesConcat(if Stays(d, user) then [d] else [], Kept(rest, user), key, press);
      if FiresOn(key, press, d) {
        StaysExactlyWhen(d, user, key, press);
      }
      assert Matches([d], key, press) == if FiresOn(key, press, d) then [d] else [];
    }
  }

  /** The bindings a press runs are all the user's or all defaults. */
  lemma MergeNeverMixes(user: seq<KeyBinding>, defaults: seq<KeyBinding>, key: Key, press: Modifiers)
    requires OneTrigger(user, defaults, press)
    ensures Matches(Merged(user, defaults), key, press)
         == if Matches(user, key, press) == [] then Matches(defaults, key, press) else Matches(user, key, press)
  {
    DefaultsGiveWay(user, defaults, key, press);
    MatchesConcat(user, Kept(defaults, user), key, press);
  }

  lemma {:induction false} UserNamesNoCommand(raw: seq<RawBinding>, t: Tables)
    ensures forall u :: u in UserBindings(raw, t, false) ==> !u.mods.command
  {
    if raw != [] {
      UserNamesNoCommand(raw[..|raw| - 1], t);
    }
  }

  /** Off macOS, where each Control raises Command: for every configuration the
      bindings a press runs have exactly its Alt, Control and Shift, and are
      the user's in their order or, if none of theirs fires, the defaults. */
  lemma OffMacPressesRunOneSide(raw: seq<RawBinding>, t: Tables, key: Key, press: Modifiers)
    requires press.command == press.ctrl
    requires forall d :: d in t.defaults ==> !d.mods.command
    ensures var user := UserBindings(raw, t, false);
      var run := Matches(Merged(user, t.defaults), key, press);
      && run == (if Matches(user, key, press) == [] then Matches(t.defaults, key, press) else Matches(user, key, press))
      && forall b :: b in run ==> b.key == key && b.mods == press.(command := false)
  {
    var user := UserBindings(raw, t, false);
    UserNamesNoCommand(raw, t);
    forall required: Modifiers | !required.command
      ensures Fires(press, required) <==> required == press.(command := false)
    {
      ExactModifiersFire(press, required);
    }
    MergeNeverMixes(user, t.defaults, key, press);
    MatchesAre(user, key, press);
    MatchesAre(t.defaults, key, press);
  }

  /** With this configuration the press runs bindings of the user's and defaults. */
  ghost predicate Mixes(raw: seq<RawBinding>, t: Tables, mac: bool, key: Key, press: Modifiers) {
    var user := UserBindings(raw, t, mac);
    Matches(user, key, press) != [] && Matches(Kept(t.defaults, user), key, press) != []
  }

  /** On macOS some configuration makes a press mix exactly when it carries both
      Control and Command, fires a default, and its key has a name. */
  lemma SomeUserMixesExactlyWhen(t: Tables, key: Key, press: Modifiers)
    ensures (exists raw :: Mixes(raw, t, true, key, press))
       <==> && press.ctrl && press.command
            && (exists name :: t.keyOf(name) == Some(key))
            && exists d :: d in t.defaults && FiresOn(key, press, d)
  {
    if press.ctrl && press.command && exists name :: t.keyOf(name) == Some(key) {
      var name :| t.keyOf(name) == Some(key);
      if d :| d in t.defaults && FiresOn(key, press, d) {
        MixWithDefault(t, name, key, press, d);
      }
    }
    if raw :| Mixes(raw, t, true, key, press) {
      MixingNeeds(UserBindings(raw, t, true), t.defaults, key, press);
      MatchesAre(UserBindings(raw, t, true), key, press);
      var u := Matches(UserBindings(raw, t, true), key, press)[0];
      KeysAreNamed(raw, t, true);
      assert u in UserBindings(raw, t, true);
    }
  }

  lemma MixingNeeds(user: seq<KeyBinding>, defaults: seq<KeyBinding>, key: Key, press: Modifiers)
    requires Matches(user, key, press) != [] && Matches(Kept(defaults, user), key, press) != []
    ensures press.ctrl && press.command && exists d :: d in defaults && FiresOn(key, press, d)
  {
    OneTriggerExactlyWhen(press);
    if !(press.ctrl && press.command) {
      DefaultsGiveWay(user, defaults, key, press);
    }
    MatchesAre(Kept(defaults, user), key, press);
    KeptAre(defaults, user);
    var d := Matches(Kept(defaults, user), key, press)[0];
    assert d in defaults && FiresOn(key, press, d);
  }

  lemma {:induction false} KeysAreNamed(raw: seq<RawBinding>, t: Tables, mac: bool)
    ensures forall u :: u in UserBindings(raw, t, mac) ==> exists name :: t.keyOf(name) == Some(u.key)
  {
    if raw != [] {
      KeysAreNamed(raw[..|raw| - 1], t, mac);
      var r := raw[|raw| - 1];
      if Bound(r, t, mac).Some? {
        assert t.keyOf(r.key) == Some(Bound(r, t, mac).value.key);
      }
    }
  }

  /** A binding that fires on the same press with other modifiers leaves the
      default in place, and can be configured. */
  lemma MixWithDefault(t: Tables, name: string, key: Key, press: Modifiers, d: KeyBinding)
    requires press.ctrl && press.command && d in t.defaults && FiresOn(key, press, d) && t.keyOf(name) == Some(key)
    ensures exists raw :: Mixes(raw, t, true, key, press)
  {
    var mods := if d.mods == press then press.(ctrl := false) else press;
    var r := RawBinding(name, Some(Written(mods)), None, None, None, true);
    var u := KeyBinding(key, mods, Unsupported("command"));
    EverySetCanBeWritten(mods, true);
    assert [r][..0] == [];
    assert UserBindings([r], t, true) == [u];
    LeavesTheDefault(t.defaults, key, press, d, u);
    assert Mixes([r], t, true, key, press);
  }

  lemma LeavesTheDefault(defaults: seq<KeyBinding>, key: Key, press: Modifiers, d: KeyBinding, u: KeyBinding)
    requires d in defaults && FiresOn(key, press, d) && FiresOn(key, press, u) && u.mods != d.mods
    ensures Matches([u], key, press) != [] && Matches(Kept(defaults, [u]), key, press) != []
  {
    MatchesAre([u], key, press);
    assert u in Matches([u], key, press);
    KeptAre(defaults, [u]);
    MatchesAre(Kept(defaults, [u]), key, press);
    assert d in Matches(Kept(defaults, [u]), key, press);
  }

  lemma {:induction false} KeptAre(defaults: seq<KeyBinding>, user: seq<KeyBinding>)
    ensures forall d :: d in Kept(defaults, user) <==> d in defaults && Stays(d, user)
  {
    if defaults != [] {
      KeptAre(defaults[1..], user);
    }
  }

  /** A configuration's entries are bound one by one, in order. */
  lemma {:induction false} EntriesBindInOrder(raw: seq<RawBinding>, more: seq<RawBinding>, t: Tables, mac: bool)
    ensures UserBindings(raw + more, t, mac) == UserBindings(raw, t, mac) + UserBindings(more, t, mac)
  {
    if more == [] {
      assert raw + more == raw;
    } else {
      var all := raw + more;
      assert all[..|all| - 1] == raw + more[..|more| - 1];
      EntriesBindInOrder(raw, more[..|more| - 1], t, mac);
    }
  }
}
