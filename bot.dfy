/** The posting job: the app object that selects a quote and a screenshot, gates the composite
    on its hash, records the three uses and posts, and the handler that repeats this until a
    composite is unique.

    The usage tables are the field `store`; the writes and the post are also appended, in the
    order they happen, to the field `log`, so that their order can be stated. */
module Bot {
  import opened Errors
  import opened Base64
  import opened UsageStore
  import opened Selection

  /** An externally visible effect: a `put_item`, an `update_item`, or the post of a composite. */
  datatype Event =
    | Put(table: Table, key: string, timesUsed: nat, updatedOn: Timestamp)
    | Update(table: Table, key: string, timesUsed: nat, updatedOn: Timestamp)
    | Publish(hash: string)

  /** The random choices of one attempt of the handler's loop. */
  datatype Round = Round(quoteDraws: seq<nat>, quoteTie: nat, imageDraws: seq<nat>, imageTie: nat)

  /** How a handler run ends. */
  datatype RunResult =
    | Tweeted(round: nat, text: string, image: string, hash: string)
    | Failed(round: nat, error: Error)
    | NoUniqueComposite

  /** The partition value `update_db` writes: the hash itself in the combination table, the
      Base64 encoding of the value in the others. */
  function KeyFor(table: Table, value: string): (key: string)
    requires table == Combination || IsAscii(value)
  {
    if table == Combination then value else PartitionValue(value)
  }

  /** The write `update_db` issues: a put of count one when the stored count is zero or absent,
      otherwise an update to one more than the stored count. */
  function WriteEvent(store: Store, table: Table, key: string, now: Timestamp): Event {
    if TimesUsed(store, table, key) == 0 then Put(table, key, 1, now)
    else Update(table, key, TimesUsed(store, table, key) + 1, now)
  }

  /** The store after a successful post: one more use of the quote, the screenshot and the composite. */
  function AfterPost(store: Store, text: string, image: string, hash: string, now: Timestamp): Store
    requires IsAscii(text) && IsAscii(image)
  {
    var s1 := RecordUse(store, Quotes, PartitionValue(text), now);
    var s2 := RecordUse(s1, Screenshots, PartitionValue(image), now);
    RecordUse(s2, Combination, hash, now)
  }

  /** The effects of a successful attempt, in source order: three writes, then the post. */
  function PostEvents(store: Store, text: string, image: string, hash: string, now: Timestamp): seq<Event>
    requires IsAscii(text) && IsAscii(image)
  {
    var s1 := RecordUse(store, Quotes, PartitionValue(text), now);
    var s2 := RecordUse(s1, Screenshots, PartitionValue(image), now);
    [WriteEvent(store, Quotes, PartitionValue(text), now),
     WriteEvent(s1, Screenshots, PartitionValue(image), now),
     WriteEvent(s2, Combination, hash, now),
     Publish(hash)]
  }

  predicate RoundReady(store: Store, quotes: seq<string>, images: seq<string>, rd: Round) {
    && DrawsInRange(quotes, rd.quoteDraws) && TieBreakInRange(store, Quotes, quotes, rd.quoteDraws, rd.quoteTie)
    && DrawsInRange(images, rd.imageDraws) && TieBreakInRange(store, Screenshots, images, rd.imageDraws, rd.imageTie)
  }

  predicate RoundsReady(store: Store, quotes: seq<string>, images: seq<string>, rounds: seq<Round>) {
    forall k :: 0 <= k < |rounds| ==> RoundReady(store, quotes, images, rounds[k])
  }

  /** What the two selections of one attempt produced. */
  datatype Attempt = Attempt(text: Result<string>, image: Result<string>)

  function AttemptOf(store: Store, quotes: seq<string>, images: seq<string>, rd: Round): (a: Attempt)
    requires RoundReady(store, quotes, images, rd)
    ensures a.text.Ok? ==> IsAscii(a.text.value)
    ensures a.image.Ok? ==> IsAscii(a.image.value)
  {
    Attempt(Select(store, Quotes, quotes, rd.quoteDraws, rd.quoteTie),
            Select(store, Screenshots, images, rd.imageDraws, rd.imageTie))
  }

  /** The selections of every attempt; attempts that repeat a composite change nothing, so they
      all read the same store. */
  function Attempts(store: Store, quotes: seq<string>, images: seq<string>, rounds: seq<Round>): (r: seq<Attempt>)
    requires RoundsReady(store, quotes, images, rounds)
    ensures |r| == |rounds|
    ensures forall k :: 0 <= k < |rounds| ==> r[k] == AttemptOf(store, quotes, images, rounds[k])
  {
    seq(|rounds|, k requires 0 <= k < |rounds| && RoundsReady(store, quotes, images, rounds) =>
      AttemptOf(store, quotes, images, rounds[k]))
  }

  /** An attempt whose quote and screenshot were selected but whose composite was posted before. */
  predicate Repeats(store: Store, a: Attempt, compositeHash: (string, string) -> string) {
    a.text.Ok? && a.image.Ok? && !IsUnique(store, compositeHash(a.text.value, a.image.value))
  }

  /** The decision of one attempt, numbered `round`: a failed selection ends the run, a unique
      composite is posted and ends it, a repeated composite goes on to the next attempt (None). */
  function Step(store: Store, a: Attempt, compositeHash: (string, string) -> string, round: nat): Option<RunResult> {
    if a.text.Err? then Some(Failed(round, a.text.error))
    else if a.image.Err? then Some(Failed(round, a.image.error))
    else
      var hash := compositeHash(a.text.value, a.image.value);
      if IsUnique(store, hash) then Some(Tweeted(round, a.text.value, a.image.value, hash))
      else None
  }

  /** The outcome of the handler's loop from attempt `from` on. */
  function Run(store: Store, attempts: seq<Attempt>, compositeHash: (string, string) -> string, from: nat): RunResult
    decreases |attempts| - from
  {
    if from >= |attempts| then NoUniqueComposite
    else
      match Step(store, attempts[from], compositeHash, from)
      case Some(res) => res
      case None => Run(store, attempts, compositeHash, from + 1)
  }

  /** A run posts the composite of the first attempt whose composite is unique: every earlier
      attempt repeated a composite, and the posted text, image and hash are that attempt's. */
  lemma {:induction false} RunTweetedFirstUnique(store: Store, attempts: seq<Attempt>,
                                                 compositeHash: (string, string) -> string, from: nat)
    requires Run(store, attempts, compositeHash, from).Tweeted?
    ensures var res := Run(store, attempts, compositeHash, from);
      && from <= res.round < |attempts|
      && (forall k :: from <= k < res.round ==> Repeats(store, attempts[k], compositeHash))
      && attempts[res.round] == Attempt(Ok(res.text), Ok(res.image))
      && res.hash == compositeHash(res.text, res.image)
      && IsUnique(store, res.hash)
    decreases |attempts| - from
  {
    var a := attempts[from];
    if !(a.text.Ok? && a.image.Ok? && IsUnique(store, compositeHash(a.text.value, a.image.value))) {
      assert Repeats(store, a, compositeHash);
      assert Run(store, attempts, compositeHash, from) == Run(store, attempts, compositeHash, from + 1);
      RunTweetedFirstUnique(store, attempts, compositeHash, from + 1);
    }
  }

  /** A run that finds no unique composite went through every attempt, and each one repeated a composite. */
  lemma {:induction false} RunNoUniqueAllRepeat(store: Store, attempts: seq<Attempt>,
                                                compositeHash: (string, string) -> string, from: nat)
    requires Run(store, attempts, compositeHash, from).NoUniqueComposite?
    ensures forall k :: from <= k < |attempts| ==> Repeats(store, attempts[k], compositeHash)
    decreases |attempts| - from
  {
    if from < |attempts| {
      RunNoUniqueAllRepeat(store, attempts, compositeHash, from + 1);
    }
  }

  /** A failed run stopped at the first selection that failed, after attempts that only repeated
      composites; the quote is selected before the screenshot. */
  lemma {:induction false} RunFailedInSelection(store: Store, attempts: seq<Attempt>,
                                                compositeHash: (string, string) -> string, from: nat)
    requires Run(store, attempts, compositeHash, from).Failed?
    ensures var res := Run(store, attempts, compositeHash, from);
      && from <= res.round < |attempts|
      && (forall k :: from <= k < res.round ==> Repeats(store, attempts[k], compositeHash))
      && (attempts[res.round].text == Err(res.error) ||
          (attempts[res.round].text.Ok? && attempts[res.round].image == Err(res.error)))
    decreases |attempts| - from
  {
    var a := attempts[from];
    if a.text.Ok? && a.image.Ok? {
      assert Repeats(store, a, compositeHash);
      assert Run(store, attempts, compositeHash, from) == Run(store, attempts, compositeHash, from + 1);
      RunFailedInSelection(store, attempts, compositeHash, from + 1);
    }
  }

  /** After a successful post, the quote, the screenshot and the composite have each been used
      once more, nothing else has changed, and the same composite no longer passes the gate. */
  lemma AfterPostCounts(store: Store, text: string, image: string, hash: string, now: Timestamp, t: Table, k: string)
    requires IsAscii(text) && IsAscii(image)
    ensures TimesUsed(AfterPost(store, text, image, hash, now), t, k) == TimesUsed(store, t, k) +
      (if (t == Quotes && k == PartitionValue(text)) || (t == Screenshots && k == PartitionValue(image))
          || (t == Combination && k == hash) then 1 else 0)
    ensures !IsUnique(AfterPost(store, text, image, hash, now), hash)
  {
    var s1 := RecordUse(store, Quotes, PartitionValue(text), now);
    var s2 := RecordUse(s1, Screenshots, PartitionValue(image), now);
    RecordUseCounts(store, Quotes, PartitionValue(text), now, t, k);
    RecordUseCounts(s1, Screenshots, PartitionValue(image), now, t, k);
    RecordUseCounts(s2, Combination, hash, now, t, k);
    UsedHashIsNotUnique(s2, hash, now);
  }

  /** The object `BobJackRossManApp`, with the usage tables it reads and writes. */
  class App {
    var store: Store
    var log: seq<Event>
    var quotesValue: string
    var screenshotsValue: string
    var combinationValue: string
    var isCombinationUnique: bool

    constructor (initial: Store)
      ensures store == initial && log == []
    {
      store := initial;
      log := [];
      quotesValue := "";
      screenshotsValue := "";
      combinationValue := "";
      isCombinationUnique := false;
    }

    /** `_get_quotes`: the best-of-sample quote, remembered in `quotesValue`. */
    method GetQuotes(pool: seq<string>, draws: seq<nat>, tieBreak: nat) returns (r: Result<string>)
      requires DrawsInRange(pool, draws) && TieBreakInRange(store, Quotes, pool, draws, tieBreak)
      modifies this`quotesValue
      ensures r == Select(store, Quotes, pool, draws, tieBreak)
      ensures quotesValue == if r.Ok? then r.value else old(quotesValue)
    {
      r := SelectLeastUsed(store, Quotes, pool, draws, tieBreak);
      if r.Ok? {
        quotesValue := r.value;
      }
    }

    /** `_get_screenshots`: the best-of-sample screenshot, remembered in `screenshotsValue`. */
    method GetScreenshots(pool: seq<string>, draws: seq<nat>, tieBreak: nat) returns (r: Result<string>)
      requires DrawsInRange(pool, draws) && TieBreakInRange(store, Screenshots, pool, draws, tieBreak)
      modifies this`screenshotsValue
      ensures r == Select(store, Screenshots, pool, draws, tieBreak)
      ensures screenshotsValue == if r.Ok? then r.value else old(screenshotsValue)
    {
      r := SelectLeastUsed(store, Screenshots, pool, draws, tieBreak);
      if r.Ok? {
        screenshotsValue := r.value;
      }
    }

    /** The gate of `create_tweet`: remember the composite's hash and whether it was never used. */
    method CreateTweet(text: string, image: string, compositeHash: (string, string) -> string)
      modifies this`combinationValue, this`isCombinationUnique
      ensures combinationValue == compositeHash(text, image)
      ensures isCombinationUnique == IsUnique(store, combinationValue)
    {
      combinationValue := compositeHash(text, image);
      var check := GetItem(store, Combination, combinationValue);
      if check.timesUsed == 0 {
        isCombinationUnique := true;
      } else {
        isCombinationUnique := false;
      }
    }

    /** `update_db`: read the count, then put one or update to one more. Encoding a value that is
        not ASCII fails before anything is read or written. */
    method UpdateDb(table: Table, value: string, now: Timestamp) returns (r: Outcome)
      modifies this`store, this`log
      ensures r.Pass? <==> (table == Combination || IsAscii(value))
      ensures r.Fail? ==> r.error == NotAscii && store == old(store) && log == old(log)
      ensures r.Pass? ==> store == RecordUse(old(store), table, KeyFor(table, value), now)
      ensures r.Pass? ==> log == old(log) + [WriteEvent(old(store), table, KeyFor(table, value), now)]
    {
      var key := value;
      if table != Combination {
        var encoded := EncodeText(value);
        if encoded.Err? {
          return Fail(encoded.error);
        }
        key := encoded.value;
      }
      var response := GetItem(store, table, key);
      var timesUsed := 1;
      if response.timesUsed == 0 {
        store := store[StoreKey(table, key) := Record(timesUsed, now)];
        log := log + [Put(table, key, timesUsed, now)];
      } else {
        timesUsed := response.timesUsed + 1;
        store := store[StoreKey(table, key) := Record(timesUsed, now)];
        log := log + [Update(table, key, timesUsed, now)];
      }
      r := Pass;
    }

    /** `post_tweet`: the upload and the status update, seen only as an event. */
    method PostTweet(hash: string)
      modifies this`log
      ensures log == old(log) + [Publish(hash)]
    {
      log := log + [Publish(hash)];
    }

    /** The unique branch of `lambda_handler`: update the quote, screenshot and combination tables,
        in that order, then post. The selected values are ASCII, so no write can fail. */
    method RecordAndPost(now: Timestamp)
      requires IsAscii(quotesValue) && IsAscii(screenshotsValue)
      modifies this`store, this`log
      ensures store == AfterPost(old(store), quotesValue, screenshotsValue, combinationValue, now)
      ensures log == old(log) + PostEvents(old(store), quotesValue, screenshotsValue, combinationValue, now)
    {
      ghost var s0, l0 := store, log;
      ghost var k1, k2 := PartitionValue(quotesValue), PartitionValue(screenshotsValue);
      var u1 := UpdateDb(Quotes, quotesValue, now);
      assert u1.Pass? && KeyFor(Quotes, quotesValue) == k1;
      ghost var s1, l1 := store, log;
      var u2 := UpdateDb(Screenshots, screenshotsValue, now);
      assert u2.Pass? && KeyFor(Screenshots, screenshotsValue) == k2;
      ghost var s2, l2 := store, log;
      var u3 := UpdateDb(Combination, combinationValue, now);
      assert u3.Pass? && KeyFor(Combination, combinationValue) == combinationValue;
      PostTweet(combinationValue);
      assert log == l0 + [WriteEvent(s0, Quotes, k1, now), WriteEvent(s1, Screenshots, k2, now),
                          WriteEvent(s2, Combination, combinationValue, now), Publish(combinationValue)];
    }

    /** One pass of the `while True` body of `lambda_handler`: select the quote, then the screenshot,
        gate the composite, and on a unique one record the three uses and post. */
    method TryRound(quotes: seq<string>, images: seq<string>, rd: Round,
                    compositeHash: (string, string) -> string, now: Timestamp, round: nat)
      returns (res: Option<RunResult>)
      requires RoundReady(store, quotes, images, rd)
      modifies this
      ensures res == Step(old(store), AttemptOf(old(store), quotes, images, rd), compositeHash, round)
      ensures !(res.Some? && res.value.Tweeted?) ==> store == old(store) && log == old(log)
      ensures res.Some? && res.value.Tweeted? ==> IsAscii(res.value.text) && IsAscii(res.value.image)
      ensures res.Some? && res.value.Tweeted? ==>
        store == AfterPost(old(store), res.value.text, res.value.image, res.value.hash, now) &&
        log == old(log) + PostEvents(old(store), res.value.text, res.value.image, res.value.hash, now)
    {
      ghost var a := AttemptOf(store, quotes, images, rd);
      var text := GetQuotes(quotes, rd.quoteDraws, rd.quoteTie);
      if text.Err? {
        return Some(Failed(round, text.error));
      }
      var image := GetScreenshots(images, rd.imageDraws, rd.imageTie);
      if image.Err? {
        return Some(Failed(round, image.error));
      }
      assert a == Attempt(text, image);
      res := PostIfUnique(text.value, image.value, compositeHash, now, round);
    }

    /** The rest of the body once both selections succeeded: gate the composite, and when it is
        unique record the three uses, post, and end the run. */
    method PostIfUnique(text: string, image: string, compositeHash: (string, string) -> string,
                        now: Timestamp, round: nat)
      returns (res: Option<RunResult>)
      requires IsAscii(text) && IsAscii(image)
      requires quotesValue == text && screenshotsValue == image
      modifies this
      ensures res == Step(old(store), Attempt(Ok(text), Ok(image)), compositeHash, round)
      ensures res.None? ==> store == old(store) && log == old(log)
      ensures res.Some? ==> res.value == Tweeted(round, text, image, compositeHash(text, image))
      ensures res.Some? ==>
        store == AfterPost(old(store), text, image, compositeHash(text, image), now) &&
        log == old(log) + PostEvents(old(store), text, image, compositeHash(text, image), now)
    {
      CreateTweet(text, image, compositeHash);
      if isCombinationUnique {
        RecordAndPost(now);
        return Some(Tweeted(round, text, image, combinationValue));
      }
      return None;
    }

    /** `lambda_handler`: attempt after attempt, select a quote and a screenshot and gate their
        composite; on the first unique one record the three uses, then post, and stop. An attempt
        whose composite is not unique writes nothing. The attempts are bounded by `rounds`. */
    method LambdaHandler(quotes: seq<string>, images: seq<string>, rounds: seq<Round>,
                         compositeHash: (string, string) -> string, now: Timestamp)
      returns (res: RunResult)
      requires RoundsReady(store, quotes, images, rounds)
      modifies this
      ensures res == Run(old(store), Attempts(old(store), quotes, images, rounds), compositeHash, 0)
      ensures !res.Tweeted? ==> store == old(store) && log == old(log)
      ensures res.Tweeted? ==> IsAscii(res.text) && IsAscii(res.image)
      ensures res.Tweeted? ==> store == AfterPost(old(store), res.text, res.image, res.hash, now)
      ensures res.Tweeted? ==> log == old(log) + PostEvents(old(store), res.text, res.image, res.hash, now)
    {
      ghost var attempts := Attempts(store, quotes, images, rounds);
      var n := 0;
      while n < |rounds|
        invariant n <= |rounds|
        invariant store == old(store) && log == old(log)
        invariant Run(store, attempts, compositeHash, n) == Run(store, attempts, compositeHash, 0)
      {
        assert RoundReady(store, quotes, images, rounds[n]);
        assert attempts[n] == AttemptOf(store, quotes, images, rounds[n]);
        var step := TryRound(quotes, images, rounds[n], compositeHash, now, n);
        if step.Some? {
          return step.value;
        }
        n := n + 1;
      }
      return NoUniqueComposite;
    }
  }
}
