/**
  `Main::driftingBottleVoid`: the quota on thrown bottles, and the loop that draws
  a bottle again while it is the user's own; over the table of bottles as the
  `Database` class reads and writes it.
 */
module Bottles {
  import opened Bits
  import opened Bytes
  import opened Strings

  // ---------- the table ----------

  /** A row; a new row is available. */
  datatype Bottle = Bottle(id: int, sender: int, available: bool)

  /** `where available = 1` */
  function Live(rows: seq<Bottle>): (r: seq<Bottle>)
    ensures forall i :: 0 <= i < |r| ==> r[i] in rows && r[i].available
  {
    if rows == [] then [] else (if rows[0].available then [rows[0]] else []) + Live(rows[1..])
  }

  /** `getBottles`: a failed query, like one without rows, reads as an empty list. */
  function GetBottles(rows: seq<Bottle>, readFails: bool): seq<Bottle> {
    if readFails then [] else Live(rows)
  }

  /** `CHANGESTATUS` */
  function ChangeStatus(rows: seq<Bottle>, id: int): seq<Bottle> {
    Map((b: Bottle) => if b.id == id then b.(available := false) else b, rows)
  }

  /** `DELETEBOTTLE`, by a moderator. */
  function DeleteBottle(rows: seq<Bottle>, id: int): seq<Bottle> {
    Map((b: Bottle) => if b.id == id then b.(available := false, sender := -1) else b, rows)
  }

  /** What `add_blacklist` does to the bottles of a sender. */
  function DeleteBottlesOf(rows: seq<Bottle>, sender: int): seq<Bottle> {
    Map((b: Bottle) => if b.sender == sender then b.(available := false, sender := -1) else b, rows)
  }

  /** Every available row is read, as often as it is in the table. */
  lemma {:induction false} LiveExactly(rows: seq<Bottle>, b: Bottle)
    ensures multiset(Live(rows))[b] == if b.available then multiset(rows)[b] else 0
  {
    if rows != [] {
      LiveExactly(rows[1..], b);
      HeadAndTail(rows);
    }
  }

  /** The bottles of a sender in what was read. */
  function Owned(read: seq<Bottle>, user: int): nat {
    if read == [] then 0 else (if read[0].sender == user then 1 else 0) + Owned(read[1..], user)
  }

  /** The live bottles of a sender. */
  function CountOf(rows: seq<Bottle>, user: int): nat {
    Owned(Live(rows), user)
  }

  lemma {:induction false} OwnedConcat(a: seq<Bottle>, b: seq<Bottle>, user: int)
    ensures Owned(a + b, user) == Owned(a, user) + Owned(b, user)
  {
    if a == [] {
      assert a + b == b;
    } else {
      OwnedConcat(a[1..], b, user);
      assert (a + b)[1..] == a[1..] + b;
    }
  }

  lemma {:induction false} LiveConcat(a: seq<Bottle>, b: seq<Bottle>)
    ensures Live(a + b) == Live(a) + Live(b)
  {
    if a == [] {
      assert a + b == b;
    } else {
      LiveConcat(a[1..], b);
      assert (a + b)[1..] == a[1..] + b;
      ConcatAssociative(if a[0].available then [a[0]] else [], Live(a[1..]), Live(b));
    }
  }

  lemma CountOfConcat(a: seq<Bottle>, b: seq<Bottle>, user: int)
    ensures CountOf(a + b, user) == CountOf(a, user) + CountOf(b, user)
  {
    LiveConcat(a, b);
    OwnedConcat(Live(a), Live(b), user);
  }

  lemma CountOfOne(b: Bottle, user: int)
    ensures CountOf([b], user) == if b.available && b.sender == user then 1 else 0
  {
    assert [b][1..] == [];
    assert Live([b]) == if b.available then [b] else [];
    assert Owned([b], user) == if b.sender == user then 1 else 0;
  }

  /** Rows that change become unavailable, so nobody gets a bottle. */
  lemma {:induction false} MapAddsNothing(f: Bottle -> Bottle, rows: seq<Bottle>, user: int)
    requires forall b :: f(b) == b || !f(b).available
    ensures CountOf(Map(f, rows), user) <= CountOf(rows, user)
  {
    if rows != [] {
      var b, rest := rows[0], rows[1..];
      MapAddsNothing(f, rest, user);
      CountOfConcat([b], rest, user);
      CountOfConcat([f(b)], Map(f, rest), user);
      CountOfOne(b, user);
      CountOfOne(f(b), user);
      HeadAndTail(rows);
    }
  }

  /** Taking a bottle out of the sea, deleting it, or all of a sender, gives nobody a bottle. */
  lemma RemovingAddsNothing(rows: seq<Bottle>, id: int, user: int)
    ensures CountOf(ChangeStatus(rows, id), user) <= CountOf(rows, user)
    ensures CountOf(DeleteBottle(rows, id), user) <= CountOf(rows, user)
    ensures CountOf(DeleteBottlesOf(rows, id), user) <= CountOf(rows, user)
  {
    MapAddsNothing((b: Bottle) => if b.id == id then b.(available := false) else b, rows, user);
    MapAddsNothing((b: Bottle) => if b.id == id then b.(available := false, sender := -1) else b, rows, user);
    MapAddsNothing((b: Bottle) => if b.sender == id then b.(available := false, sender := -1) else b, rows, user);
  }

  /** The three updates take just their bottles out of what is read, and leave the others. */
  lemma {:induction false} MapTakesOut(f: Bottle -> Bottle, rows: seq<Bottle>, b: Bottle)
    requires forall c :: f(c) == c || !f(c).available
    ensures multiset(Live(Map(f, rows)))[b] == if f(b) == b then multiset(Live(rows))[b] else 0
  {
    if rows != [] {
      var c, rest := rows[0], rows[1..];
      MapTakesOut(f, rest, b);
      HeadAndTail(rows);
      assert Map(f, rows) == [f(c)] + Map(f, rest);
      LiveConcat([c], rest);
      LiveConcat([f(c)], Map(f, rest));
      LiveOfOne(c);
      LiveOfOne(f(c));
    }
  }

  lemma LiveOfOne(b: Bottle)
    ensures Live([b]) == if b.available then [b] else []
  {
    assert [b][1..] == [];
  }

  lemma RemovedExactly(rows: seq<Bottle>, id: int, b: Bottle)
    requires b.available
    ensures multiset(Live(ChangeStatus(rows, id)))[b] == if b.id == id then 0 else multiset(rows)[b]
    ensures multiset(Live(DeleteBottle(rows, id)))[b] == if b.id == id then 0 else multiset(rows)[b]
    ensures multiset(Live(DeleteBottlesOf(rows, id)))[b] == if b.sender == id then 0 else multiset(rows)[b]
  {
    MapTakesOut((b: Bottle) => if b.id == id then b.(available := false) else b, rows, b);
    MapTakesOut((b: Bottle) => if b.id == id then b.(available := false, sender := -1) else b, rows, b);
    MapTakesOut((b: Bottle) => if b.sender == id then b.(available := false, sender := -1) else b, rows, b);
    LiveExactly(rows, b);
  }

  // ---------- throws and picks ----------

  datatype ThrowResult = TooMany | Forbidden | Empty | TooLong | DatabaseError | Thrown

  /** The outcome of a throw, in the order of the checks, for the bottles as they were read. */
  function Verdict(read: seq<Bottle>, user: int, text: seq<Byte>, forbidden: bool, stored: bool): ThrowResult {
    if Owned(read, user) > 20 then TooMany
    else if forbidden then Forbidden
    else if |text| == 0 then Empty
    else if |text| > 5000 then TooLong
    else if !stored then ThrowResult.DatabaseError
    else Thrown
  }

  /**
    What happens to the table. `readFails` says that the query for the bottles
    failed, `stored` that the database accepted the update and the new row.
   */
  datatype Event =
    | Throwing(user: int, text: seq<Byte>, forbidden: bool, id: int, readFails: bool, stored: bool)
    | Removing(id: int)
    | Deleting(id: int)
    | Blacklisting(sender: int)

  function Step(rows: seq<Bottle>, e: Event): seq<Bottle> {
    match e
    case Throwing(user, text, forbidden, id, readFails, stored) =>
      var verdict := Verdict(GetBottles(rows, readFails), user, text, forbidden, stored);
      if verdict.Thrown? then rows + [Bottle(id, user, true)] else rows
    case Removing(id) => ChangeStatus(rows, id)
    case Deleting(id) => DeleteBottle(rows, id)
    case Blacklisting(sender) => DeleteBottlesOf(rows, sender)
  }

  function Run(rows: seq<Bottle>, es: seq<Event>): seq<Bottle> {
    if es == [] then rows else Step(Run(rows, es[..|es| - 1]), es[|es| - 1])
  }

  /** A throw that is refused for nothing but, possibly, the quota. */
  predicate IsProper(e: Event, user: int) {
    e.Throwing? && e.user == user && !e.forbidden && 0 < |e.text| <= 5000 && e.stored
  }

  /** Such a throw by a user whose bottles could not be read. */
  predicate IsBlind(e: Event, user: int) {
    IsProper(e, user) && e.readFails
  }

  function BlindThrows(es: seq<Event>, user: int): nat {
    if es == [] then 0 else BlindThrows(es[..|es| - 1], user) + (if IsBlind(es[|es| - 1], user) then 1 else 0)
  }

  /** The event that takes a user with `count` live bottles past `q` of them. */
  predicate Passes(e: Event, user: int, count: nat, q: nat) {
    IsProper(e, user) && count == q && (e.readFails || q <= 20)
  }

  /**
    One event: exactly when it gives a user a bottle more, and so exactly when it
    takes the user past any number of them.
   */
  lemma StepCount(rows: seq<Bottle>, e: Event, user: int, q: nat)
    ensures var count, next := CountOf(rows, user), CountOf(Step(rows, e), user);
            && (next > count <==> IsProper(e, user) && (e.readFails || count <= 20))
            && next <= count + 1
            && (count <= q ==> (next > q <==> Passes(e, user, count, q)))
  {
    match e
    case Throwing(u, _, _, id, _, _) =>
      CountOfConcat(rows, [Bottle(id, u, true)], user);
      CountOfOne(Bottle(id, u, true), user);
    case Removing(id) => RemovingAddsNothing(rows, id, user);
    case Deleting(id) => RemovingAddsNothing(rows, id, user);
    case Blacklisting(sender) => RemovingAddsNothing(rows, sender, user);
  }

  /** The live bottles of a user after the first `k` events of a run. */
  function CountAfter(rows: seq<Bottle>, es: seq<Event>, user: int, k: nat): nat
    requires k <= |es|
  {
    CountOf(Run(rows, es[..k]), user)
  }

  /** At every point of a run, the user has at most `q` live bottles. */
  predicate StaysWithin(rows: seq<Bottle>, es: seq<Event>, user: int, q: nat) {
    forall k :: 0 <= k <= |es| ==> CountAfter(rows, es, user, k) <= q
  }

  /** One of the events passes `q`. */
  predicate PassesIn(rows: seq<Bottle>, es: seq<Event>, user: int, q: nat) {
    exists k :: 0 <= k < |es| && Passes(es[k], user, CountAfter(rows, es, user, k), q)
  }

  /**
    Over every run from at most `q` bottles, for every `q`: the user stays within
    `q` if and only if no proper throw comes when the user has just `q` and either
    `q` is at most 20 or the bottles could not be read. With 20 this is the number
    of the message, with 21 the limit that the check keeps.
   */
  lemma QuotaExactly(rows: seq<Bottle>, es: seq<Event>, user: int, q: nat)
    requires CountOf(rows, user) <= q
    ensures StaysWithin(rows, es, user, q) <==> !PassesIn(rows, es, user, q)
  {
    assert es[..0] == [];
    assert CountAfter(rows, es, user, 0) <= q;
    if PassesIn(rows, es, user, q) {
      var k :| 0 <= k < |es| && Passes(es[k], user, CountAfter(rows, es, user, k), q);
      NextCount(rows, es, user, k, q);
    } else {
      forall n | 0 <= n <= |es|
        ensures CountAfter(rows, es, user, n) <= q
      {
        StaysAt(rows, es, user, q, n);
      }
    }
  }

  /** One event of a run. */
  lemma NextCount(rows: seq<Bottle>, es: seq<Event>, user: int, k: nat, q: nat)
    requires k < |es| && CountAfter(rows, es, user, k) <= q
    ensures CountAfter(rows, es, user, k + 1) > q <==> Passes(es[k], user, CountAfter(rows, es, user, k), q)
  {
    assert es[..k + 1][..k] == es[..k];
    assert Run(rows, es[..k + 1]) == Step(Run(rows, es[..k]), es[k]);
    StepCount(Run(rows, es[..k]), es[k], user, q);
  }

  lemma {:induction false} StaysAt(rows: seq<Bottle>, es: seq<Event>, user: int, q: nat, n: nat)
    requires n <= |es| && CountAfter(rows, es, user, 0) <= q && !PassesIn(rows, es, user, q)
    ensures CountAfter(rows, es, user, n) <= q
  {
    if n > 0 {
      StaysAt(rows, es, user, q, n - 1);
      NextCount(rows, es, user, n - 1, q);
    }
  }

  /** Over every run: a sender passes 21 live bottles by no more than the blind throws. */
  lemma {:induction false} QuotaBound(rows: seq<Bottle>, es: seq<Event>, user: int)
    ensures var start := CountOf(rows, user);
            CountOf(Run(rows, es), user) <= (if start < 21 then 21 else start) + BlindThrows(es, user)
  {
    if es != [] {
      var before := es[..|es| - 1];
      QuotaBound(rows, before, user);
      StepCount(Run(rows, before), es[|es| - 1], user, 0);
    }
  }

  /** Over every run whose successful throws read the table, no sender comes to more than 21 live bottles. */
  lemma QuotaHolds(rows: seq<Bottle>, es: seq<Event>, user: int)
    requires BlindThrows(es, user) == 0
    requires CountOf(rows, user) <= 21
    ensures CountOf(Run(rows, es), user) <= 21
  {
    QuotaBound(rows, es, user);
  }

  /** `n` throws by one user; from the 22nd on, the bottles cannot be read. */
  function Throws(user: int, n: nat): seq<Event> {
    if n == 0 then [] else Throws(user, n - 1) + [Throwing(user, [0x21], false, n, n > 21, true)]
  }

  lemma RunOneMore(rows: seq<Bottle>, es: seq<Event>, e: Event, user: int)
    ensures Run(rows, es + [e]) == Step(Run(rows, es), e)
    ensures BlindThrows(es + [e], user) == BlindThrows(es, user) + if IsBlind(e, user) then 1 else 0
  {
    assert (es + [e])[..|es|] == es;
  }

  /** All of them succeed. */
  lemma {:induction false} ThrowsSucceed(user: int, n: nat)
    ensures CountOf(Run([], Throws(user, n)), user) == n
    ensures BlindThrows(Throws(user, n), user) == if n <= 21 then 0 else n - 21
  {
    if n > 0 {
      var es, e := Throws(user, n - 1), Throwing(user, [0x21], false, n, n > 21, true);
      ThrowsSucceed(user, n - 1);
      RunOneMore([], es, e, user);
      OneThrow(Run([], es), e);
    }
  }

  lemma OneThrow(rows: seq<Bottle>, e: Event)
    requires e.Throwing? && !e.forbidden && 0 < |e.text| <= 5000 && e.stored
    requires e.readFails || CountOf(rows, e.user) <= 20
    ensures CountOf(Step(rows, e), e.user) == CountOf(rows, e.user) + 1
  {
    CountOfConcat(rows, [Bottle(e.id, e.user, true)], e.user);
    CountOfOne(Bottle(e.id, e.user, true), e.user);
  }

  /**
    The bound is reached for every number of blind throws: without any, one more
    than the 20 of the message to the user; with some, as many as they are more.
   */
  lemma QuotaIsReached(user: int, blind: nat) returns (es: seq<Event>)
    ensures BlindThrows(es, user) == blind && CountOf(Run([], es), user) == 21 + blind
  {
    es := Throws(user, 21 + blind);
    ThrowsSucceed(user, 21 + blind);
  }

  // ---------- drawing ----------

  /** `utils::randomNum`, for the answer of `rand()`. */
  function RandomNum(rand: nat, minNum: int, maxNum: int): (r: int)
    requires minNum <= maxNum
    ensures minNum <= r <= maxNum
  {
    rand % (maxNum - minNum + 1) + minNum
  }

  /** Every number between the bounds is an answer, and the answers come round after as many as there are. */
  lemma RandomNumOnto(rand: nat, minNum: int, maxNum: int)
    requires minNum <= maxNum
    ensures rand <= maxNum - minNum ==> RandomNum(rand, minNum, maxNum) == minNum + rand
    ensures RandomNum(rand + (maxNum - minNum + 1), minNum, maxNum) == RandomNum(rand, minNum, maxNum)
  {
    var n := maxNum - minNum + 1;
    if rand < n {
      DivModUnique(rand, n, 0, rand);
    }
    MulDistribute(rand / n, 1, n);
    DivModUnique(rand + n, n, rand / n + 1, rand % n);
  }

  /** Draw number `k`. */
  function Drawn(read: seq<Bottle>, rands: seq<nat>, k: nat): (index: nat)
    requires read != [] && k < |rands|
    ensures index < |read|
  {
    RandomNum(rands[k], 0, |read| - 1)
  }

  /**
    The redraw loop; `rands` are the answers of `rand()`. The loop makes at most
    one draw more than there are bottles; it stops early only at somebody else's
    bottle, so it returns the user's own only when every draw it made was the
    user's own.
   */
  method Draw(read: seq<Bottle>, user: int, rands: seq<nat>) returns (index: nat, made: nat)
    requires read != [] && |rands| > |read|
    ensures index < |read| && 1 <= made <= |read| + 1 && index == Drawn(read, rands, made - 1)
    ensures forall k :: 0 <= k < made - 1 ==> read[Drawn(read, rands, k)].sender == user
    ensures made <= |read| ==> read[index].sender != user
    ensures read[index].sender == user <==>
              forall k :: 0 <= k <= |read| ==> read[Drawn(read, rands, k)].sender == user
  {
    index := RandomNum(rands[0], 0, |read| - 1);
    made := 1;
    var i := 0;
    while i < |read|
      invariant 0 <= i <= |read| && made == i + 1 && index == Drawn(read, rands, made - 1)
      invariant forall k :: 0 <= k < made - 1 ==> read[Drawn(read, rands, k)].sender == user
    {
      if read[index].sender != user {
        break;
      }
      index := RandomNum(rands[made], 0, |read| - 1);
      made := made + 1;
      i := i + 1;
    }
  }

  /** Draw `k` is the first that is somebody else's bottle, or the last one there is. */
  predicate IsFirstOthers(read: seq<Bottle>, user: int, rands: seq<nat>, k: nat)
    requires read != [] && |rands| > |read|
  {
    && k <= |read|
    && (forall i :: 0 <= i < k ==> read[Drawn(read, rands, i)].sender == user)
    && (k < |read| ==> read[Drawn(read, rands, k)].sender != user)
  }

  datatype PickResult = NoChance | NoBottles | DatabaseError | Picked(bottle: Bottle)

  /** The loop that counts the bottles of the user. */
  method CountThrown(j: seq<Bottle>, user: int) returns (throwCount: nat)
    ensures throwCount == Owned(j, user)
  {
    throwCount := 0;
    for i := 0 to |j|
      invariant throwCount == Owned(j[..i], user)
    {
      assert j[..i + 1] == j[..i] + [j[i]];
      OwnedConcat(j[..i], [j[i]], user);
      if j[i].sender == user {
        throwCount := throwCount + 1;
      }
    }
    assert j[..|j|] == j;
  }

  /** The table of bottles in the database. */
  class Sea {
    var rows: seq<Bottle>

    constructor ()
      ensures rows == []
    {
      rows := [];
    }

    /** A throw; `id` is the key the database gives a new row. */
    method Throw(user: int, text: seq<Byte>, forbidden: bool, id: int, readFails: bool, stored: bool)
      returns (r: ThrowResult)
      modifies this
      ensures var tooMany := !readFails && CountOf(old(rows), user) > 20;
              && (r.TooMany? <==> tooMany)
              && (r.Forbidden? <==> !tooMany && forbidden)
              && (r.Empty? <==> !tooMany && !forbidden && |text| == 0)
              && (r.TooLong? <==> !tooMany && !forbidden && |text| > 5000)
              && (r.DatabaseError? <==> !tooMany && !forbidden && 0 < |text| <= 5000 && !stored)
              && (r.Thrown? <==> !tooMany && !forbidden && 0 < |text| <= 5000 && stored)
      ensures rows == if r.Thrown? then old(rows) + [Bottle(id, user, true)] else old(rows)
      ensures rows == Step(old(rows), Throwing(user, text, forbidden, id, readFails, stored))
      ensures r.Thrown? ==> CountOf(rows, user) == CountOf(old(rows), user) + 1
      ensures r.Thrown? && !readFails ==> CountOf(rows, user) <= 21
    {
      var j := GetBottles(rows, readFails);
      var throwCount := CountThrown(j, user);
      if throwCount > 20 {
        return TooMany;
      }
      if forbidden {
        return Forbidden;
      }
      if |text| == 0 {
        return Empty;
      }
      if |text| > 5000 {
        return TooLong;
      }
      if !stored {
        return ThrowResult.DatabaseError;
      }
      var bottle := Bottle(id, user, true);
      CountOfConcat(rows, [bottle], user);
      CountOfOne(bottle, user);
      rows := rows + [bottle];
      r := Thrown;
    }

    /**
      A pick. `counted` says that the database accepted the updates before the
      bottle is shown, `removed` that `RemoveBottle` took it out of the sea.
     */
    method Pick(user: int, remaining: int, rands: seq<nat>, readFails: bool, counted: bool, removed: bool)
      returns (r: PickResult)
      requires |rands| > |rows|
      modifies this
      ensures r.NoChance? <==> remaining <= 0
      ensures r.NoBottles? <==> remaining > 0 && GetBottles(old(rows), readFails) == []
      ensures r.DatabaseError? <==> remaining > 0 && GetBottles(old(rows), readFails) != [] && !counted
      ensures r.Picked? ==> r.bottle in old(rows) && r.bottle.available
      ensures r.Picked? ==> var read := Live(old(rows));
                exists k :: 0 <= k <= |read| < |rands|
                            && IsFirstOthers(read, user, rands, k) && r.bottle == read[Drawn(read, rands, k)]
      ensures r.Picked? ==> var read := Live(old(rows));
                |read| < |rands| && (r.bottle.sender == user <==>
                  forall k :: 0 <= k <= |read| ==> read[Drawn(read, rands, k)].sender == user)
      ensures rows == if r.Picked? && removed then ChangeStatus(old(rows), r.bottle.id) else old(rows)
      ensures rows == if r.Picked? && removed then Step(old(rows), Removing(r.bottle.id)) else old(rows)
      ensures forall u :: CountOf(rows, u) <= CountOf(old(rows), u)
    {
      var j := GetBottles(rows, readFails);
      LiveIsShorter(rows);
      if remaining > 0 {
        if |j| != 0 {
          var index, made := Draw(j, user, rands);
          if !counted {
            return PickResult.DatabaseError;
          }
          r := Picked(j[index]);
          assert IsFirstOthers(j, user, rands, made - 1);
          if removed {
            forall u
              ensures CountOf(ChangeStatus(rows, j[index].id), u) <= CountOf(rows, u)
            {
              RemovingAddsNothing(rows, j[index].id, u);
            }
            rows := ChangeStatus(rows, j[index].id);
          }
        } else {
          r := NoBottles;
        }
      } else {
        r := NoChance;
      }
    }
  }

  lemma {:induction false} LiveIsShorter(rows: seq<Bottle>)
    ensures |Live(rows)| <= |rows|
  {
    if rows != [] {
      LiveIsShorter(rows[1..]);
    }
  }
}
