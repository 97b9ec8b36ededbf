/** Light and heavy box-drawing characters, U+2500 to U+257F without dashes,
    double lines, arcs and diagonals: which arms each one has. */
module LineTables {

  datatype Weight = Absent | Light | Heavy

  datatype Arms = Arms(left: Weight, right: Weight, up: Weight, down: Weight)

  const NONE := Arms(Absent, Absent, Absent, Absent)

  predicate IsLine(c: char) {
    || '\U{2500}' <= c <= '\U{2503}'
    || '\U{250c}' <= c <= '\U{254b}'
    || '\U{2574}' <= c <= '\U{257f}'
  }

  /** The left arm of a line character. */
  function LeftOf(c: char): Weight {
    if c in {
          '\U{2500}', '\U{2510}', '\U{2512}', '\U{2518}', '\U{251a}', '\U{2524}', '\U{2526}', '\U{2527}',
          '\U{2528}', '\U{252c}', '\U{252e}', '\U{2530}', '\U{2532}', '\U{2534}', '\U{2536}', '\U{2538}',
          '\U{253a}', '\U{253c}', '\U{253e}', '\U{2540}', '\U{2541}', '\U{2542}', '\U{2544}', '\U{2546}',
          '\U{254a}', '\U{2574}', '\U{257c}'
        } then Light
    else if c in {
          '\U{2501}', '\U{2511}', '\U{2513}', '\U{2519}', '\U{251b}', '\U{2525}', '\U{2529}', '\U{252a}',
          '\U{252b}', '\U{252d}', '\U{252f}', '\U{2531}', '\U{2533}', '\U{2535}', '\U{2537}', '\U{2539}',
          '\U{253b}', '\U{253d}', '\U{253f}', '\U{2543}', '\U{2545}', '\U{2547}', '\U{2548}', '\U{2549}',
          '\U{254b}', '\U{2578}', '\U{257e}'
        } then Heavy
    else Absent
  }

  /** The right arm. */
  function RightOf(c: char): Weight {
    if c in {
          '\U{2500}', '\U{250c}', '\U{250e}', '\U{2514}', '\U{2516}', '\U{251c}', '\U{251e}', '\U{251f}',
          '\U{2520}', '\U{252c}', '\U{252d}', '\U{2530}', '\U{2531}', '\U{2534}', '\U{2535}', '\U{2538}',
          '\U{2539}', '\U{253c}', '\U{253d}', '\U{2540}', '\U{2541}', '\U{2542}', '\U{2543}', '\U{2545}',
          '\U{2549}', '\U{2576}', '\U{257e}'
        } then Light
    else if c in {
          '\U{2501}', '\U{250d}', '\U{250f}', '\U{2515}', '\U{2517}', '\U{251d}', '\U{2521}', '\U{2522}',
          '\U{2523}', '\U{252e}', '\U{252f}', '\U{2532}', '\U{2533}', '\U{2536}', '\U{2537}', '\U{253a}',
          '\U{253b}', '\U{253e}', '\U{253f}', '\U{2544}', '\U{2546}', '\U{2547}', '\U{2548}', '\U{254a}',
          '\U{254b}', '\U{257a}', '\U{257c}'
        } then Heavy
    else Absent
  }

  /** The upper arm. */
  function UpOf(c: char): Weight {
    if c in {
          '\U{2502}', '\U{2514}', '\U{2515}', '\U{2518}', '\U{2519}', '\U{251c}', '\U{251d}', '\U{251f}',
          '\U{2522}', '\U{2524}', '\U{2525}', '\U{2527}', '\U{252a}', '\U{2534}', '\U{2535}', '\U{2536}',
          '\U{2537}', '\U{253c}', '\U{253d}', '\U{253e}', '\U{253f}', '\U{2541}', '\U{2545}', '\U{2546}',
          '\U{2548}', '\U{2575}', '\U{257d}'
        } then Light
    else if c in {
          '\U{2503}', '\U{2516}', '\U{2517}', '\U{251a}', '\U{251b}', '\U{251e}', '\U{2520}', '\U{2521}',
          '\U{2523}', '\U{2526}', '\U{2528}', '\U{2529}', '\U{252b}', '\U{2538}', '\U{2539}', '\U{253a}',
          '\U{253b}', '\U{2540}', '\U{2542}', '\U{2543}', '\U{2544}', '\U{2547}', '\U{2549}', '\U{254a}',
          '\U{254b}', '\U{2579}', '\U{257f}'
        } then Heavy
    else Absent
  }

  /** The lower arm. */
  function DownOf(c: char): Weight {
    if c in {
          '\U{2502}', '\U{250c}', '\U{250d}', '\U{2510}', '\U{2511}', '\U{251c}', '\U{251d}', '\U{251e}',
          '\U{2521}', '\U{2524}', '\U{2525}', '\U{2526}', '\U{2529}', '\U{252c}', '\U{252d}', '\U{252e}',
          '\U{252f}', '\U{253c}', '\U{253d}', '\U{253e}', '\U{253f}', '\U{2540}', '\U{2543}', '\U{2544}',
          '\U{2547}', '\U{2577}', '\U{257f}'
        } then Light
    else if c in {
          '\U{2503}', '\U{250e}', '\U{250f}', '\U{2512}', '\U{2513}', '\U{251f}', '\U{2520}', '\U{2522}',
          '\U{2523}', '\U{2527}', '\U{2528}', '\U{252a}', '\U{252b}', '\U{2530}', '\U{2531}', '\U{2532}',
          '\U{2533}', '\U{2541}', '\U{2542}', '\U{2545}', '\U{2546}', '\U{2548}', '\U{2549}', '\U{254a}',
          '\U{254b}', '\U{257b}', '\U{257d}'
        } then Heavy
    else Absent
  }

  function ArmsOf(c: char): Arms {
    Arms(LeftOf(c), RightOf(c), UpOf(c), DownOf(c))
  }

  /** The character named after its arms in the Unicode Box Drawing block. */
  function Named(a: Arms): char {
    match a
    case Arms(Absent, Absent, Absent, Absent) => ' '
    case Arms(Absent, Absent, Absent, Light) => '\U{2577}'
    case Arms(Absent, Absent, Absent, Heavy) => '\U{257b}'
    case Arms(Absent, Absent, Light, Absent) => '\U{2575}'
    case Arms(Absent, Absent, Light, Light) => '\U{2502}'
    case Arms(Absent, Absent, Light, Heavy) => '\U{257d}'
    case Arms(Absent, Absent, Heavy, Absent) => '\U{2579}'
    case Arms(Absent, Absent, Heavy, Light) => '\U{257f}'
    case Arms(Absent, Absent, Heavy, Heavy) => '\U{2503}'
    case Arms(Absent, Light, Absent, Absent) => '\U{2576}'
    case Arms(Absent, Light, Absent, Light) => '\U{250c}'
    case Arms(Absent, Light, Absent, Heavy) => '\U{250e}'
    case Arms(Absent, Light, Light, Absent) => '\U{2514}'
    case Arms(Absent, Light, Light, Light) => '\U{251c}'
    case Arms(Absent, Light, Light, Heavy) => '\U{251f}'
    case Arms(Absent, Light, Heavy, Absent) => '\U{2516}'
    case Arms(Absent, Light, Heavy, Light) => '\U{251e}'
    case Arms(Absent, Light, Heavy, Heavy) => '\U{2520}'
    case Arms(Absent, Heavy, Absent, Absent) => '\U{257a}'
    case Arms(Absent, Heavy, Absent, Light) => '\U{250d}'
    case Arms(Absent, Heavy, Absent, Heavy) => '\U{250f}'
    case Arms(Absent, Heavy, Light, Absent) => '\U{2515}'
    case Arms(Absent, Heavy, Light, Light) => '\U{251d}'
    case Arms(Absent, Heavy, Light, Heavy) => '\U{2522}'
    case Arms(Absent, Heavy, Heavy, Absent) => '\U{2517}'
    case Arms(Absent, Heavy, Heavy, Light) => '\U{2521}'
    case Arms(Absent, Heavy, Heavy, Heavy) => '\U{2523}'
    case Arms(Light, Absent, Absent, Absent) => '\U{2574}'
    case Arms(Light, Absent, Absent, Light) => '\U{2510}'
    case Arms(Light, Absent, Absent, Heavy) => '\U{2512}'
    case Arms(Light, Absent, Light, Absent) => '\U{2518}'
    case Arms(Light, Absent, Light, Light) => '\U{2524}'
    case Arms(Light, Absent, Light, Heavy) => '\U{2527}'
    case Arms(Light, Absent, Heavy, Absent) => '\U{251a}'
    case Arms(Light, Absent, Heavy, Light) => '\U{2526}'
    case Arms(Light, Absent, Heavy, Heavy) => '\U{2528}'
    case Arms(Light, Light, Absent, Absent) => '\U{2500}'
    case Arms(Light, Light, Absent, Light) => '\U{252c}'
    case Arms(Light, Light, Absent, Heavy) => '\U{2530}'
    case Arms(Light, Light, Light, Absent) => '\U{2534}'
    case Arms(Light, Light, Light, Light) => '\U{253c}'
    case Arms(Light, Light, Light, Heavy) => '\U{2541}'
    case Arms(Light, Light, Heavy, Absent) => '\U{2538}'
    case Arms(Light, Light, Heavy, Light) => '\U{2540}'
    case Arms(Light, Light, Heavy, Heavy) => '\U{2542}'
    case Arms(Light, Heavy, Absent, Absent) => '\U{257c}'
    case Arms(Light, Heavy, Absent, Light) => '\U{252e}'
    case Arms(Light, Heavy, Absent, Heavy) => '\U{2532}'
    case Arms(Light, Heavy, Light, Absent) => '\U{2536}'
    case Arms(Light, Heavy, Light, Light) => '\U{253e}'
    case Arms(Light, Heavy, Light, Heavy) => '\U{2546}'
    case Arms(Light, Heavy, Heavy, Absent) => '\U{253a}'
    case Arms(Light, Heavy, Heavy, Light) => '\U{2544}'
    case Arms(Light, Heavy, Heavy, Heavy) => '\U{254a}'
    case Arms(Heavy, Absent, Absent, Absent) => '\U{2578}'
    case Arms(Heavy, Absent, Absent, Light) => '\U{2511}'
    case Arms(Heavy, Absent, Absent, Heavy) => '\U{2513}'
    case Arms(Heavy, Absent, Light, Absent) => '\U{2519}'
    case Arms(Heavy, Absent, Light, Light) => '\U{2525}'
    case Arms(Heavy, Absent, Light, Heavy) => '\U{252a}'
    case Arms(Heavy, Absent, Heavy, Absent) => '\U{251b}'
    case Arms(Heavy, Absent, Heavy, Light) => '\U{2529}'
    case Arms(Heavy, Absent, Heavy, Heavy) => '\U{252b}'
    case Arms(Heavy, Light, Absent, Absent) => '\U{257e}'
    case Arms(Heavy, Light, Absent, Light) => '\U{252d}'
    case Arms(Heavy, Light, Absent, Heavy) => '\U{2531}'
    case Arms(Heavy, Light, Light, Absent) => '\U{2535}'
    case Arms(Heavy, Light, Light, Light) => '\U{253d}'
    case Arms(Heavy, Light, Light, Heavy) => '\U{2545}'
    case Arms(Heavy, Light, Heavy, Absent) => '\U{2539}'
    case Arms(Heavy, Light, Heavy, Light) => '\U{2543}'
    case Arms(Heavy, Light, Heavy, Heavy) => '\U{2549}'
    case Arms(Heavy, Heavy, Absent, Absent) => '\U{2501}'
    case Arms(Heavy, Heavy, Absent, Light) => '\U{252f}'
    case Arms(Heavy, Heavy, Absent, Heavy) => '\U{2533}'
    case Arms(Heavy, Heavy, Light, Absent) => '\U{2537}'
    case Arms(Heavy, Heavy, Light, Light) => '\U{253f}'
    case Arms(Heavy, Heavy, Light, Heavy) => '\U{2548}'
    case Arms(Heavy, Heavy, Heavy, Absent) => '\U{253b}'
    case Arms(Heavy, Heavy, Heavy, Light) => '\U{2547}'
    case Arms(Heavy, Heavy, Heavy, Heavy) => '\U{254b}'
  }

  lemma LeftOfNamed(a: Arms)
    requires a != NONE
    ensures IsLine(Named(a)) && LeftOf(Named(a)) == a.left
  {
  }

  lemma RightOfNamed(a: Arms)
    requires a != NONE
    ensures IsLine(Named(a)) && RightOf(Named(a)) == a.right
  {
  }

  lemma UpOfNamed(a: Arms)
    requires a != NONE
    ensures IsLine(Named(a)) && UpOf(Named(a)) == a.up
  {
  }

  lemma DownOfNamed(a: Arms)
    requires a != NONE
    ensures IsLine(Named(a)) && DownOf(Named(a)) == a.down
  {
  }

  /** Every combination of arms but the empty one has its character. */
  lemma ArmsOfNamed(a: Arms)
    requires a != NONE
    ensures IsLine(Named(a)) && ArmsOf(Named(a)) == a
  {
    LeftOfNamed(a);
    RightOfNamed(a);
    UpOfNamed(a);
    DownOfNamed(a);
  }

  ghost predicate IsNamedAfterItsArms(c: char) {
    ArmsOf(c) != NONE && Named(ArmsOf(c)) == c
  }

  lemma LowLinesAreNamed(c: char)
    requires IsLine(c) && c < '\U{252c}'
    ensures IsNamedAfterItsArms(c)
  {
  }

  lemma HighLinesAreNamed(c: char)
    requires IsLine(c) && '\U{252c}' <= c
    ensures IsNamedAfterItsArms(c)
  {
  }

  /** And every line character is the one named after its arms. */
  lemma NamedArmsOf(c: char)
    requires IsLine(c)
    ensures ArmsOf(c) != NONE && Named(ArmsOf(c)) == c
  {
    if c < '\U{252c}' {
      LowLinesAreNamed(c);
    } else {
      HighLinesAreNamed(c);
    }
  }
}
