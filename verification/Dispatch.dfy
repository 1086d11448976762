/**
  `CmdParser::parser`: a chain of prefix comparisons, and why the first match is
  also the longest.
 */
module Dispatch {
  import opened Wrappers
  import opened Bytes
  import opened Strings

  // ---------- comparing a prefix with _stricmp ----------

  /** `tolower` in the C locale. */
  function Lower(b: Byte): Byte {
    if 65 <= b <= 90 then b + 32 else b
  }

  function LowerAll(s: seq<Byte>): (r: seq<Byte>)
    ensures |r| == |s| && forall i :: 0 <= i < |s| ==> r[i] == Lower(s[i])
  {
    Map(Lower, s)
  }

  /** What C sees of a string: the bytes before the first NUL. */
  function CStr(s: seq<Byte>): (r: seq<Byte>)
    ensures |r| <= |s| && r == s[..|r|] && NulFree(r)
    ensures r == s <==> NulFree(s)
  {
    if s == [] || s[0] == 0 then [] else [s[0]] + CStr(s[1..])
  }

  predicate NulFree(s: seq<Byte>) {
    forall i :: 0 <= i < |s| ==> s[i] != 0
  }

  /** `_stricmp(message.substr(0, n).c_str(), name) == 0` */
  predicate Guard(message: seq<Byte>, n: nat, name: seq<Byte>) {
    LowerAll(CStr(Substr(message, 0, n).value)) == LowerAll(CStr(name))
  }

  /** `p` is a prefix of `s`, up to the case of ASCII letters. */
  predicate CasePrefix(p: seq<Byte>, s: seq<Byte>) {
    |p| <= |s| && forall i :: 0 <= i < |p| ==> Lower(p[i]) == Lower(s[i])
  }

  /** With the length of the name, the guard is the prefix test, for every message, NUL bytes or not. */
  lemma GuardIsPrefix(message: seq<Byte>, name: seq<Byte>)
    requires NulFree(name)
    ensures Guard(message, |name|, name) <==> CasePrefix(name, message)
  {
    var t := Substr(message, 0, |name|).value;
    assert t == message[..|t|] && |t| <= |name|;
    if CasePrefix(name, message) {
      assert forall i :: 0 <= i < |t| ==> Lower(t[i]) == Lower(name[i]) && t[i] != 0;
      assert LowerAll(t) == LowerAll(name);
    }
    if Guard(message, |name|, name) {
      assert |CStr(t)| == |name|;
      assert forall i :: 0 <= i < |name| ==> LowerAll(name)[i] == LowerAll(t)[i];
    }
  }

  // ---------- the commands ----------

  datatype Handler =
    | RemainingPickups | BottleStatistics | AvailableBottles | ThrowBottle | PickBottle
    | HangmanHelp | HangmanStatus | HangmanRanking | StartHangmanWith | StartHangman | GiveUp
    | GuessLetter | ShowPlayer | Recalculate | Ignored

  datatype Command = Command(name: seq<Byte>, handler: Handler)

  const BOTTLE: seq<Byte> := [0xE6, 0xBC, 0x82, 0xE6, 0xB5, 0x81, 0xE7, 0x93, 0xB6]
  const WORD_GAME: seq<Byte> := [0xE7, 0x8C, 0x9C, 0xE5, 0x8D, 0x95, 0xE8, 0xAF, 0x8D]

  const REMAINING: seq<Byte> :=
    [0xE5, 0x89, 0xA9, 0xE4, 0xBD, 0x99, 0xE6, 0x89, 0x93, 0xE6, 0x8D, 0x9E, 0xE6, 0xAC, 0xA1, 0xE6, 0x95, 0xB0]
  const STATISTICS: seq<Byte> := BOTTLE + [0xE5, 0x8F, 0x82, 0xE6, 0x95, 0xB0]
  const AVAILABLE: seq<Byte> := [0xE6, 0xB5, 0xB7, 0xE4, 0xB8, 0x8A] + BOTTLE + [0xE6, 0x95, 0xB0, 0xE9, 0x87, 0x8F]
  const THROW1: seq<Byte> := [0xE6, 0x89, 0x94] + BOTTLE
  const THROW2: seq<Byte> := [0xE4, 0xB8, 0xA2] + BOTTLE
  const PICK1: seq<Byte> := [0xE6, 0x8D, 0xA1] + BOTTLE
  const PICK2: seq<Byte> := [0xE6, 0x8D, 0x9E] + BOTTLE
  const GAME_HELP: seq<Byte> := WORD_GAME + [0xE5, 0xB8, 0xAE, 0xE5, 0x8A, 0xA9]
  const GAME_STATUS: seq<Byte> := WORD_GAME + [0xE7, 0x8A, 0xB6, 0xE6, 0x80, 0x81]
  const GAME_RANKING: seq<Byte> := WORD_GAME + [0xE6, 0x8E, 0x92, 0xE8, 0xA1, 0x8C, 0xE6, 0xA6, 0x9C]
  const GAME_WITH: seq<Byte> := WORD_GAME + [0x2B]
  const GIVE_UP: seq<Byte> := [0xE6, 0x94, 0xBE, 0xE5, 0xBC, 0x83]
  const MY_GAME: seq<Byte> := [0xE6, 0x88, 0x91, 0xE7, 0x9A, 0x84] + WORD_GAME
  const WARNING_RECALCULATE: seq<Byte> :=
    [0x77, 0x61, 0x72, 0x6E, 0x69, 0x6E, 0x67, 0x3A, 0x72, 0x65, 0x63, 0x61, 0x6C, 0x63, 0x75, 0x6C, 0x61, 0x74, 0x65,
     0x61, 0x6C, 0x6C, 0x68, 0x61, 0x6E, 0x67, 0x6D, 0x61, 0x6E, 0x73, 0x63, 0x6F, 0x72, 0x65, 0x73]

  /** The names in the order of the chain. */
  const COMMANDS: seq<Command> := [
    Command(REMAINING, RemainingPickups),
    Command(STATISTICS, BottleStatistics),
    Command(AVAILABLE, AvailableBottles),
    Command(THROW1, ThrowBottle),
    Command(THROW2, ThrowBottle),
    Command(PICK1, PickBottle),
    Command(PICK2, PickBottle),
    Command(GAME_HELP, HangmanHelp),
    Command(GAME_STATUS, HangmanStatus),
    Command(GAME_RANKING, HangmanRanking),
    Command(GAME_WITH, StartHangmanWith),
    Command(WORD_GAME, StartHangman),
    Command(GIVE_UP, GiveUp),
    Command(MY_GAME, ShowPlayer),
    Command(WARNING_RECALCULATE, Recalculate)
  ]

  // ---------- first match and longest match ----------

  /** Entry `k` is the first whose name begins the message. */
  predicate IsFirst(table: seq<Command>, message: seq<Byte>, k: nat) {
    && k < |table| && CasePrefix(table[k].name, message)
    && forall j :: 0 <= j < k ==> !CasePrefix(table[j].name, message)
  }

  /** No name is a proper prefix of a later one. */
  predicate WellOrdered(table: seq<Command>) {
    forall i, j :: 0 <= i < j < |table| && |table[i].name| < |table[j].name| ==>
      !CasePrefix(table[i].name, table[j].name)
  }

  /** In a well-ordered table the first match is the longest. */
  lemma FirstIsLongest(table: seq<Command>, message: seq<Byte>, k: nat, j: nat)
    requires WellOrdered(table) && IsFirst(table, message, k)
    requires j < |table| && CasePrefix(table[j].name, message)
    ensures |table[j].name| <= |table[k].name|
  {
    if |table[j].name| > |table[k].name| {
      assert CasePrefix(table[k].name, table[j].name);
    }
  }

  /** In a table that is not well-ordered some message goes to a shorter name: the condition is exact. */
  lemma ShadowedName(table: seq<Command>, i: nat, j: nat) returns (k: nat)
    requires i < j < |table| && |table[i].name| < |table[j].name| && CasePrefix(table[i].name, table[j].name)
    ensures IsFirst(table, table[j].name, k) && k <= i
  {
    k := 0;
    while !CasePrefix(table[k].name, table[j].name)
      invariant k <= i
      invariant forall h :: 0 <= h < k ==> !CasePrefix(table[h].name, table[j].name)
      decreases i - k
    {
      k := k + 1;
    }
  }

  lemma DiffersAt(a: seq<Byte>, b: seq<Byte>, k: nat)
    requires k < |a| && k < |b| && Lower(a[k]) != Lower(b[k])
    ensures !CasePrefix(a, b)
  {
  }

  /** The longer names that begin with the name of the game alone. */
  predicate BeginsAnother(i: nat, j: nat) {
    i == 11 && 7 <= j < 11
  }

  /** Any two names differ in a byte they both have, but for the name of the game and the names that begin with it. */
  lemma DifferentByte(i: nat, j: nat) returns (k: nat)
    requires i < j < |COMMANDS| && !BeginsAnother(j, i)
    ensures var a, b := COMMANDS[i].name, COMMANDS[j].name;
            k < |a| && k < |b| && Lower(a[k]) != Lower(b[k])
  {
    if i < 7 {
      k := DifferentBottleByte(i, j);
    } else {
      k := DifferentGameByte(i, j);
    }
  }

  lemma DifferentBottleByte(i: nat, j: nat) returns (k: nat)
    requires i < 7 && i < j < |COMMANDS|
    ensures var a, b := COMMANDS[i].name, COMMANDS[j].name;
            k < |a| && k < |b| && Lower(a[k]) != Lower(b[k])
  {
    var a, b := COMMANDS[i].name, COMMANDS[j].name;
    assert |a| > 2 && |b| > 2;
    k := if a[0] != b[0] then 0 else if a[1] != b[1] then 1 else 2;
  }

  lemma DifferentGameByte(i: nat, j: nat) returns (k: nat)
    requires 7 <= i < j < |COMMANDS| && !BeginsAnother(j, i)
    ensures var a, b := COMMANDS[i].name, COMMANDS[j].name;
            k < |a| && k < |b| && Lower(a[k]) != Lower(b[k])
  {
    var a, b := COMMANDS[i].name, COMMANDS[j].name;
    assert |a| > 2 && |b| > 2;
    k := if a[0] != b[0] then 0 else if a[1] != b[1] then 1 else 9;
  }

  lemma CommandsWellOrdered()
    ensures WellOrdered(COMMANDS)
  {
    forall i, j | 0 <= i < j < |COMMANDS| && |COMMANDS[i].name| < |COMMANDS[j].name|
      ensures !CasePrefix(COMMANDS[i].name, COMMANDS[j].name)
    {
      if BeginsAnother(j, i) {
        GameNameIsShortest(i);
      }
      var k := DifferentByte(i, j);
      DiffersAt(COMMANDS[i].name, COMMANDS[j].name, k);
    }
  }

  lemma GameNameIsShortest(j: nat)
    requires 7 <= j < 11
    ensures |COMMANDS[11].name| < |COMMANDS[j].name|
  {
  }

  lemma CommandsNulFree()
    ensures forall i :: 0 <= i < |COMMANDS| ==> NulFree(COMMANDS[i].name) && |COMMANDS[i].name| > 1
  {
    assert NulFree(BOTTLE) && NulFree(WORD_GAME);
    BottleNamesNulFree();
    GameNamesNulFree();
    OtherNamesNulFree();
  }

  lemma BottleNamesNulFree()
    ensures NulFree(STATISTICS) && NulFree(AVAILABLE)
    ensures NulFree(THROW1) && NulFree(THROW2) && NulFree(PICK1) && NulFree(PICK2)
  {
  }

  lemma GameNamesNulFree()
    ensures NulFree(GAME_HELP) && NulFree(GAME_STATUS) && NulFree(GAME_RANKING)
    ensures NulFree(GAME_WITH) && NulFree(MY_GAME)
  {
  }

  lemma OtherNamesNulFree()
    ensures NulFree(REMAINING) && NulFree(GIVE_UP) && NulFree(WARNING_RECALCULATE)
  {
  }

  /** The first entry from `k` on whose name begins the message; the length of the table if there is none. */
  function FirstFrom(table: seq<Command>, message: seq<Byte>, k: nat): (r: nat)
    requires k <= |table|
    ensures k <= r <= |table|
    ensures r < |table| ==> CasePrefix(table[r].name, message)
    ensures forall j :: k <= j < r ==> !CasePrefix(table[j].name, message)
    decreases |table| - k
  {
    if k == |table| || CasePrefix(table[k].name, message) then k else FirstFrom(table, message, k + 1)
  }

  /** The handler of the first match, and the rule for messages of one byte. */
  function Selected(message: seq<Byte>, isPlayer: bool): Handler {
    var k := FirstFrom(COMMANDS, message, 0);
    if k < |COMMANDS| then COMMANDS[k].handler
    else if |message| == 1 && isPlayer then GuessLetter
    else Ignored
  }

  /** A later `message.substr(n)` of the handler. */
  function Offset(h: Handler): nat {
    match h
    case ThrowBottle => 12
    case PickBottle => 12
    case HangmanRanking => 18
    case StartHangmanWith => 10
    case _ => 0
  }

  /**
    For every message, the handler is the one of the longest name that begins the
    message up to case, and its later offset into the message is in range.
   */
  lemma SelectedIsLongest(message: seq<Byte>, isPlayer: bool, j: nat)
    requires j < |COMMANDS| && CasePrefix(COMMANDS[j].name, message)
    ensures exists k :: 0 <= k < |COMMANDS| && COMMANDS[k].handler == Selected(message, isPlayer)
                        && CasePrefix(COMMANDS[k].name, message) && |COMMANDS[j].name| <= |COMMANDS[k].name|
    ensures Offset(Selected(message, isPlayer)) <= |message|
  {
    var k := FirstFrom(COMMANDS, message, 0);
    CommandsWellOrdered();
    FirstIsLongest(COMMANDS, message, k, j);
    OffsetsInRange(k);
  }

  lemma OffsetsInRange(k: nat)
    requires k < |COMMANDS|
    ensures Offset(COMMANDS[k].handler) <= |COMMANDS[k].name|
  {
  }

  predicate HasArgument(h: Handler) {
    h.ThrowBottle? || h.PickBottle? || h.HangmanRanking? || h.StartHangmanWith?
  }

  /** A handler with an argument takes what is behind the whole name. */
  lemma ArgumentBehindName(message: seq<Byte>, isPlayer: bool, k: nat)
    requires IsFirst(COMMANDS, message, k) && HasArgument(COMMANDS[k].handler)
    ensures Offset(Selected(message, isPlayer)) == |COMMANDS[k].name|
  {
    OffsetIsLength(k);
  }

  lemma OffsetIsLength(k: nat)
    requires k < |COMMANDS| && HasArgument(COMMANDS[k].handler)
    ensures Offset(COMMANDS[k].handler) == |COMMANDS[k].name|
  {
    BottleEntries();
  }

  // ---------- which message goes where ----------

  predicate IsUpper(b: Byte) { 0x41 <= b <= 0x5A }

  /** Two bytes compare equal when they are the same, or one letter in two cases. */
  lemma SameLetter(a: Byte, b: Byte)
    ensures Lower(a) == Lower(b) <==> a == b || (IsUpper(a) && b == a + 32) || (IsUpper(b) && a == b + 32)
  {
  }

  /** No message begins with two names, but for the name of the game and a name that begins with it. */
  lemma BothBegin(message: seq<Byte>, i: nat, j: nat)
    requires i < j < |COMMANDS|
    requires CasePrefix(COMMANDS[i].name, message) && CasePrefix(COMMANDS[j].name, message)
    ensures BeginsAnother(j, i)
  {
    if !BeginsAnother(j, i) {
      var k := DifferentByte(i, j);
    }
  }

  /** Its own name selects a handler; the name of the game alone only if no longer name does. */
  lemma SelectedByName(message: seq<Byte>, isPlayer: bool, k: nat)
    requires k < |COMMANDS| && CasePrefix(COMMANDS[k].name, message)
    requires k == 11 ==> forall j :: 7 <= j < 11 ==> !CasePrefix(COMMANDS[j].name, message)
    ensures Selected(message, isPlayer) == COMMANDS[k].handler
  {
    forall j | 0 <= j < k
      ensures !CasePrefix(COMMANDS[j].name, message)
    {
      if CasePrefix(COMMANDS[j].name, message) {
        BothBegin(message, j, k);
      }
    }
    Selects(message, isPlayer, k);
  }

  /** What is selected without a name. */
  lemma SelectedWithoutName(message: seq<Byte>, isPlayer: bool)
    requires forall j :: 0 <= j < |COMMANDS| ==> !CasePrefix(COMMANDS[j].name, message)
    ensures Selected(message, isPlayer) == if |message| == 1 && isPlayer then GuessLetter else Ignored
  {
  }

  /** The entry of a selected handler that is not for guessing or ignoring. */
  lemma SelectedEntry(message: seq<Byte>, isPlayer: bool) returns (k: nat)
    requires !Selected(message, isPlayer).GuessLetter? && !Selected(message, isPlayer).Ignored?
    ensures IsFirst(COMMANDS, message, k) && COMMANDS[k].handler == Selected(message, isPlayer)
  {
    k := FirstFrom(COMMANDS, message, 0);
  }

  lemma GameEntries()
    ensures COMMANDS[7] == Command(GAME_HELP, HangmanHelp) && COMMANDS[8] == Command(GAME_STATUS, HangmanStatus)
    ensures COMMANDS[9] == Command(GAME_RANKING, HangmanRanking) && COMMANDS[10] == Command(GAME_WITH, StartHangmanWith)
    ensures COMMANDS[11] == Command(WORD_GAME, StartHangman) && COMMANDS[12] == Command(GIVE_UP, GiveUp)
    ensures COMMANDS[13] == Command(MY_GAME, ShowPlayer) && COMMANDS[14] == Command(WARNING_RECALCULATE, Recalculate)
  {
  }

  /** Every message that goes to a handler for the bottles, and no other. */
  lemma BottleHandlers(message: seq<Byte>, isPlayer: bool)
    ensures var h := Selected(message, isPlayer);
            && (h == RemainingPickups <==> CasePrefix(REMAINING, message))
            && (h == BottleStatistics <==> CasePrefix(STATISTICS, message))
            && (h == AvailableBottles <==> CasePrefix(AVAILABLE, message))
            && (h == ThrowBottle <==> CasePrefix(THROW1, message) || CasePrefix(THROW2, message))
            && (h == PickBottle <==> CasePrefix(PICK1, message) || CasePrefix(PICK2, message))
  {
    BottleEntries();
    forall k | 0 <= k < 7 && CasePrefix(COMMANDS[k].name, message)
      ensures Selected(message, isPlayer) == COMMANDS[k].handler
    {
      SelectedByName(message, isPlayer, k);
    }
    var h := Selected(message, isPlayer);
    if !h.GuessLetter? && !h.Ignored? {
      var k := SelectedEntry(message, isPlayer);
      OtherHandlers(k);
    }
  }

  lemma OtherHandlers(k: nat)
    requires k < |COMMANDS|
    ensures var h := COMMANDS[k].handler;
            k < 7 <==>
              h.RemainingPickups? || h.BottleStatistics? || h.AvailableBottles? || h.ThrowBottle? || h.PickBottle?
  {
  }

  /** Every message that goes to a handler for the game or for its players, and no other. */
  lemma GameHandlers(message: seq<Byte>, isPlayer: bool)
    ensures var h := Selected(message, isPlayer);
            && (h == HangmanHelp <==> CasePrefix(GAME_HELP, message))
            && (h == HangmanStatus <==> CasePrefix(GAME_STATUS, message))
            && (h == HangmanRanking <==> CasePrefix(GAME_RANKING, message))
            && (h == StartHangmanWith <==> CasePrefix(GAME_WITH, message))
            && (h == GiveUp <==> CasePrefix(GIVE_UP, message))
            && (h == ShowPlayer <==> CasePrefix(MY_GAME, message))
            && (h == Recalculate <==> CasePrefix(WARNING_RECALCULATE, message))
  {
    GameEntries();
    forall k | 7 <= k < |COMMANDS| && k != 11 && CasePrefix(COMMANDS[k].name, message)
      ensures Selected(message, isPlayer) == COMMANDS[k].handler
    {
      SelectedByName(message, isPlayer, k);
    }
    var h := Selected(message, isPlayer);
    if !h.GuessLetter? && !h.Ignored? {
      var k := SelectedEntry(message, isPlayer);
      OtherHandlers(k);
    }
  }

  /** The name of the game alone, one byte from a player, and the rest. */
  lemma OtherMessages(message: seq<Byte>, isPlayer: bool)
    ensures var h := Selected(message, isPlayer);
            && (h == StartHangman <==>
                  CasePrefix(WORD_GAME, message) && !CasePrefix(GAME_HELP, message) && !CasePrefix(GAME_STATUS, message)
                  && !CasePrefix(GAME_RANKING, message) && !CasePrefix(GAME_WITH, message))
            && (h == GuessLetter <==> |message| == 1 && isPlayer)
            && (h == Ignored <==>
                  !(|message| == 1 && isPlayer)
                  && forall j :: 0 <= j < |COMMANDS| ==> !CasePrefix(COMMANDS[j].name, message))
  {
    GameEntries();
    var f := FirstFrom(COMMANDS, message, 0);
    if |message| == 1 {
      OneByte(message, isPlayer);
      CommandsNulFree();
    }
    if f == |COMMANDS| {
      SelectedWithoutName(message, isPlayer);
    } else {
      Selects(message, isPlayer, f);
      NamedHandlers(f);
    }
    if CasePrefix(COMMANDS[11].name, message) && (forall j :: 7 <= j < 11 ==> !CasePrefix(COMMANDS[j].name, message)) {
      SelectedByName(message, isPlayer, 11);
    }
  }

  lemma NamedHandlers(k: nat)
    requires k < |COMMANDS|
    ensures var h := COMMANDS[k].handler;
            !h.GuessLetter? && !h.Ignored? && (h.StartHangman? <==> k == 11)
  {
  }

  /** Entry `k` is selected when it is the first to match. */
  lemma Selects(message: seq<Byte>, isPlayer: bool, k: nat)
    requires IsFirst(COMMANDS, message, k)
    ensures Selected(message, isPlayer) == COMMANDS[k].handler
  {
  }

  /** `hits` says which entries begin the message. */
  ghost predicate AreHits(message: seq<Byte>, hits: seq<bool>) {
    && |hits| == |COMMANDS|
    && forall k {:trigger CasePrefix(COMMANDS[k].name, message)} ::
         0 <= k < |COMMANDS| ==> hits[k] == CasePrefix(COMMANDS[k].name, message)
  }

  /** The comparison of the chain that belongs to entry `k`. */
  method Compare(message: seq<Byte>, n: nat, name: seq<Byte>, ghost hits: seq<bool>, ghost k: nat) returns (b: bool)
    requires AreHits(message, hits) && k < |COMMANDS| && COMMANDS[k].name == name && n == |name|
    ensures b == hits[k]
  {
    b := Guard(message, n, name);
    CommandsNulFree();
    GuardIsPrefix(message, name);
    assert hits[k] == CasePrefix(COMMANDS[k].name, message);
  }

  /** Where the chain stops, in terms of the entries passed before. */
  lemma ChainMeaning(message: seq<Byte>, isPlayer: bool, hits: seq<bool>, k: nat)
    requires AreHits(message, hits) && k <= |COMMANDS| && forall j :: 0 <= j < k ==> !hits[j]
    ensures k < |COMMANDS| && hits[k] ==> Selected(message, isPlayer) == COMMANDS[k].handler
    ensures k == |COMMANDS| ==>
              Selected(message, isPlayer) == if |message| == 1 && isPlayer then GuessLetter else Ignored
  {
    var f := FirstFrom(COMMANDS, message, 0);
    assert f < |COMMANDS| ==> hits[f];
    if k < |COMMANDS| && hits[k] {
      assert CasePrefix(COMMANDS[k].name, message) == hits[k];
      Selects(message, isPlayer, k);
    }
  }

  /** A message of one byte matches no name. */
  lemma OneByte(message: seq<Byte>, isPlayer: bool)
    requires |message| == 1
    ensures Selected(message, isPlayer) == if isPlayer then GuessLetter else Ignored
  {
    CommandsNulFree();
  }

  lemma BottleEntries()
    ensures |REMAINING| == 18 && |STATISTICS| == 15 && |AVAILABLE| == 21
    ensures |THROW1| == 12 && |THROW2| == 12 && |PICK1| == 12 && |PICK2| == 12
    ensures COMMANDS[0] == Command(REMAINING, RemainingPickups) && COMMANDS[1] == Command(STATISTICS, BottleStatistics)
    ensures COMMANDS[2] == Command(AVAILABLE, AvailableBottles)
    ensures COMMANDS[3] == Command(THROW1, ThrowBottle) && COMMANDS[4] == Command(THROW2, ThrowBottle)
    ensures COMMANDS[5] == Command(PICK1, PickBottle) && COMMANDS[6] == Command(PICK2, PickBottle)
  {
  }

  /** The part of the chain for the drifting bottles. */
  method ParseBottles(message: seq<Byte>, isPlayer: bool, ghost hits: seq<bool>) returns (h: Option<Handler>)
    requires AreHits(message, hits)
    ensures h.Some? ==> h.value == Selected(message, isPlayer)
    ensures h.None? ==> forall j :: 0 <= j < 7 ==> !hits[j]
  {
    var b: bool;
    BottleEntries();
    b := Compare(message, 18, REMAINING, hits, 0);
    if b {
      ChainMeaning(message, isPlayer, hits, 0);
      return Some(RemainingPickups);
    }
    b := Compare(message, 15, STATISTICS, hits, 1);
    if b {
      ChainMeaning(message, isPlayer, hits, 1);
      return Some(BottleStatistics);
    }
    b := Compare(message, 21, AVAILABLE, hits, 2);
    if b {
      ChainMeaning(message, isPlayer, hits, 2);
      return Some(AvailableBottles);
    }
    b := Compare(message, 12, THROW1, hits, 3);
    if b {
      ChainMeaning(message, isPlayer, hits, 3);
      return Some(ThrowBottle);
    }
    b := Compare(message, 12, THROW2, hits, 4);
    if b {
      ChainMeaning(message, isPlayer, hits, 4);
      return Some(ThrowBottle);
    }
    b := Compare(message, 12, PICK1, hits, 5);
    if b {
      ChainMeaning(message, isPlayer, hits, 5);
      return Some(PickBottle);
    }
    b := Compare(message, 12, PICK2, hits, 6);
    if b {
      ChainMeaning(message, isPlayer, hits, 6);
      return Some(PickBottle);
    }
    return None;
  }

  /** The part for the word game. */
  method ParseGame(message: seq<Byte>, isPlayer: bool, ghost hits: seq<bool>) returns (h: Option<Handler>)
    requires AreHits(message, hits)
    requires forall j :: 0 <= j < 7 ==> !hits[j]
    ensures h.Some? ==> h.value == Selected(message, isPlayer)
    ensures h.None? ==> forall j :: 0 <= j < 13 ==> !hits[j]
  {
    var b: bool;
    b := Compare(message, 15, GAME_HELP, hits, 7);
    if b {
      ChainMeaning(message, isPlayer, hits, 7);
      return Some(HangmanHelp);
    }
    b := Compare(message, 15, GAME_STATUS, hits, 8);
    if b {
      ChainMeaning(message, isPlayer, hits, 8);
      return Some(HangmanStatus);
    }
    b := Compare(message, 18, GAME_RANKING, hits, 9);
    if b {
      ChainMeaning(message, isPlayer, hits, 9);
      return Some(HangmanRanking);
    }
    b := Compare(message, 10, GAME_WITH, hits, 10);
    if b {
      ChainMeaning(message, isPlayer, hits, 10);
      return Some(StartHangmanWith);
    }
    b := Compare(message, 9, WORD_GAME, hits, 11);
    if b {
      ChainMeaning(message, isPlayer, hits, 11);
      return Some(StartHangman);
    }
    b := Compare(message, 6, GIVE_UP, hits, 12);
    if b {
      ChainMeaning(message, isPlayer, hits, 12);
      return Some(GiveUp);
    }
    return None;
  }

  /** The active part of the chain; `isPlayer` is the answer of `findPlayer`. */
  method Parse(message: seq<Byte>, isPlayer: bool) returns (h: Handler)
    ensures h == Selected(message, isPlayer)
  {
    ghost var hits := seq(|COMMANDS|, k requires 0 <= k < |COMMANDS| => CasePrefix(COMMANDS[k].name, message));
    var r := ParseBottles(message, isPlayer, hits);
    if r.Some? {
      return r.value;
    }
    r := ParseGame(message, isPlayer, hits);
    if r.Some? {
      return r.value;
    }
    var b: bool;
    if |message| == 1 && isPlayer {
      OneByte(message, isPlayer);
      return GuessLetter;
    }
    b := Compare(message, 15, MY_GAME, hits, 13);
    if b {
      ChainMeaning(message, isPlayer, hits, 13);
      return ShowPlayer;
    }
    b := Compare(message, 35, WARNING_RECALCULATE, hits, 14);
    if b {
      ChainMeaning(message, isPlayer, hits, 14);
      return Recalculate;
    }
    ChainMeaning(message, isPlayer, hits, 15);
    return Ignored;
  }
}
