/** The story ratings (bot.py:24-43, bot.py:322-343): for every story id a
    record with the list of scores cast (`votes`) and each user's current score
    (`user_votes`). A user's repeat of the same score changes nothing; a new
    score replaces the user's old one in both places. The JSON file the bot
    reads and writes is modelled as the store itself: loading reads it, saving
    replaces it, and an early return or an exception leaves it as it was. */
module Ratings {
  import opened PyText
  import Callback

  /** One story's entry. Either key may be missing from a file written by
      hand or by an older version, so both are optional. */
  datatype Record = Record(votes: Option<seq<int>>, userVotes: Option<map<string, int>>)

  type Store = map<string, Record>

  /** The entry a story gets when it is first rated. */
  const NewRecord: Record := Record(Some([]), Some(map[]))

  /** How the vote update ends. */
  datatype Outcome =
    | Counted       // the score was recorded and the store saved
    | AlreadyVoted  // the user already has this very score: nothing saved
    | Failed        // the record has no `votes` list: KeyError, nothing saved

  // ---------------------------------------------------------------------
  // Scores as a list and as a multiset

  function Sum(xs: seq<int>): int {
    if xs == [] then 0 else xs[0] + Sum(xs[1..])
  }

  /** `ys` is `xs` without its element `i`, the first occurrence of `x`. */
  predicate RemovedAt(xs: seq<int>, x: int, ys: seq<int>, i: nat)
    requires i < |xs|
  {
    xs[i] == x && x !in xs[..i] && ys == xs[..i] + xs[i + 1..]
  }

  /** `xs.remove(x)`: drop the first occurrence. */
  function RemoveFirst(xs: seq<int>, x: int): (ys: seq<int>)
    requires x in xs
    ensures |ys| == |xs| - 1
    ensures multiset(ys) == multiset(xs) - multiset{x}
    ensures exists i :: 0 <= i < |xs| && RemovedAt(xs, x, ys, i)
  {
    if xs[0] == x then
      assert xs == [xs[0]] + xs[1..];
      assert RemovedAt(xs, x, xs[1..], 0);
      xs[1..]
    else
      assert xs == [xs[0]] + xs[1..];
      var rest := RemoveFirst(xs[1..], x);
      var k :| 0 <= k < |xs| - 1 && RemovedAt(xs[1..], x, rest, k);
      RemovedAtCons(xs, x, rest, k);
      [xs[0]] + rest
  }

  /** Keeping a head that is not `x` moves the removed position one on. */
  lemma RemovedAtCons(xs: seq<int>, x: int, rest: seq<int>, k: nat)
    requires |xs| > 0 && xs[0] != x && k < |xs| - 1 && RemovedAt(xs[1..], x, rest, k)
    ensures RemovedAt(xs, x, [xs[0]] + rest, k + 1)
  {
    var t := xs[1..];
    assert xs[..k + 1] == [xs[0]] + t[..k];
    assert xs[k + 2..] == t[k + 1..];
  }

  lemma {:induction false} SumAppend(xs: seq<int>, x: int)
    ensures Sum(xs + [x]) == Sum(xs) + x
  {
    if xs != [] {
      assert (xs + [x])[1..] == xs[1..] + [x];
      SumAppend(xs[1..], x);
    }
  }

  lemma {:induction false} SumRemoveFirst(xs: seq<int>, x: int)
    requires x in xs
    ensures Sum(RemoveFirst(xs, x)) == Sum(xs) - x
  {
    if xs[0] != x {
      SumRemoveFirst(xs[1..], x);
    }
  }

  predicate ScoresInRange(xs: seq<int>) {
    forall i :: 0 <= i < |xs| ==> 1 <= xs[i] <= 5
  }

  /** Scores from 1 to 5 add up to between one and five times their number. */
  lemma {:induction false} SumBounds(xs: seq<int>)
    requires ScoresInRange(xs)
    ensures |xs| <= Sum(xs) <= 5 * |xs|
  {
    if xs != [] {
      assert ScoresInRange(xs[1..]) by {
        forall i | 0 <= i < |xs| - 1 ensures 1 <= xs[1..][i] <= 5 {
          assert xs[1..][i] == xs[i + 1];
        }
      }
      SumBounds(xs[1..]);
    }
  }

  /** Some user of a non-empty map. */
  ghost function Pick(m: map<string, int>): (k: string)
    requires m.Keys != {}
    ensures k in m
  {
    var k :| k in m.Keys; k
  }

  /** The multiset of the scores held in a `user_votes` map. */
  ghost function Values(m: map<string, int>): multiset<int>
    decreases |m.Keys|
  {
    if m.Keys == {} then multiset{}
    else
      var k := Pick(m);
      RemoveKey(m, k);
      Values(m - {k}) + multiset{m[k]}
  }

  lemma RemoveKey(m: map<string, int>, k: string)
    requires k in m
    ensures (m - {k}).Keys == m.Keys - {k}
    ensures |(m - {k}).Keys| == |m.Keys| - 1
  {
  }

  lemma RemoveBoth(m: map<string, int>, j: string, k: string)
    ensures m - {j} - {k} == m - {k} - {j}
  {
  }

  lemma {:induction false} ValuesRemove(m: map<string, int>, k: string)
    requires k in m
    ensures Values(m) == Values(m - {k}) + multiset{m[k]}
    decreases |m.Keys|
  {
    var j := Pick(m);
    if j != k {
      RemoveKey(m, j);
      RemoveKey(m, k);
      ValuesRemove(m - {j}, k);
      ValuesRemove(m - {k}, j);
      RemoveBoth(m, j, k);
      SwapLast(Values(m), Values(m - {j}), Values(m - {k}), Values(m - {j} - {k}), m[j], m[k]);
    }
  }

  lemma SwapLast(all: multiset<int>, noJ: multiset<int>, noK: multiset<int>, neither: multiset<int>, vj: int, vk: int)
    requires all == noJ + multiset{vj}
    requires noJ == neither + multiset{vk} && noK == neither + multiset{vj}
    ensures all == noK + multiset{vk}
  {
  }

  /** Setting a user's score swaps their old score for the new one. */
  lemma ValuesUpdate(m: map<string, int>, k: string, v: int)
    ensures k in m ==> Values(m[k := v]) == Values(m) - multiset{m[k]} + multiset{v}
    ensures k !in m ==> Values(m[k := v]) == Values(m) + multiset{v}
  {
    ValuesRemove(m[k := v], k);
    UpdateThenRemove(m, k, v);
    if k in m {
      ValuesRemove(m, k);
    } else {
      assert m - {k} == m;
    }
  }

  lemma UpdateThenRemove(m: map<string, int>, k: string, v: int)
    ensures m[k := v] - {k} == m - {k}
  {
  }

  /** There are as many scores in the map as users. */
  lemma {:induction false} ValuesSize(m: map<string, int>)
    ensures |Values(m)| == |m|
    decreases |m.Keys|
  {
    if m.Keys != {} {
      var k := Pick(m);
      ValuesRemove(m, k);
      RemoveKey(m, k);
      ValuesSize(m - {k});
    }
  }

  lemma ValuesEmpty()
    ensures Values(map[]) == multiset{}
  {
    var m: map<string, int> := map[];
    assert m.Keys == {};
  }

  // ---------------------------------------------------------------------
  // The record invariant

  /** The scores in `votes` are exactly the users' current scores. */
  ghost predicate Consistent(rec: Record) {
    rec.votes.Some? && rec.userVotes.Some?
    && multiset(rec.votes.value) == Values(rec.userVotes.value)
  }

  ghost predicate AllConsistent(store: Store) {
    forall id :: id in store ==> Consistent(store[id])
  }

  predicate InRange(rec: Record) {
    rec.votes.Some? ==> ScoresInRange(rec.votes.value)
  }

  predicate AllInRange(store: Store) {
    forall id :: id in store ==> InRange(store[id])
  }

  // ---------------------------------------------------------------------
  // The vote update (bot.py:322-343)

  /** The record after the create and patch steps: a new entry for an unseen
      story, an empty `user_votes` for an entry without one. */
  function Prepared(store: Store, storyId: string): (rec: Record)
    ensures rec.userVotes.Some?
  {
    if storyId !in store then NewRecord
    else if store[storyId].userVotes.None? then store[storyId].(userVotes := Some(map[]))
    else store[storyId]
  }

  /** The user already has exactly this score. */
  predicate Repeats(rec: Record, userId: string, score: int)
    requires rec.userVotes.Some?
  {
    userId in rec.userVotes.value && rec.userVotes.value[userId] == score
  }

  /** `votes` with the user's previous score taken out, when it is there. */
  function Revised(votes: seq<int>, userVotes: map<string, int>, userId: string): seq<int> {
    if userId in userVotes && userVotes[userId] in votes then RemoveFirst(votes, userVotes[userId])
    else votes
  }

  /** The record once the user's score is recorded. */
  function Cast(rec: Record, userId: string, score: int): Record
    requires rec.votes.Some? && rec.userVotes.Some?
  {
    Record(Some(Revised(rec.votes.value, rec.userVotes.value, userId) + [score]),
           Some(rec.userVotes.value[userId := score]))
  }

  /** What the vote update does to the saved store. */
  function Vote(store: Store, storyId: string, userId: string, score: int): (Outcome, Store) {
    var rec := Prepared(store, storyId);
    if Repeats(rec, userId, score) then (AlreadyVoted, store)
    else if rec.votes.None? then (Failed, store)
    else (Counted, store[storyId := Cast(rec, userId, score)])
  }

  /** The user has this score for this story in the saved store. */
  predicate HasScore(store: Store, storyId: string, userId: string, score: int) {
    storyId in store && store[storyId].userVotes.Some?
    && userId in store[storyId].userVotes.value
    && store[storyId].userVotes.value[userId] == score
  }

  /** A repeat of the user's current score is refused and changes nothing;
      every other vote is either counted or fails, and only a counted vote
      changes the store. */
  lemma VoteRepeat(store: Store, storyId: string, userId: string, score: int)
    ensures Vote(store, storyId, userId, score).0 == AlreadyVoted <==> HasScore(store, storyId, userId, score)
    ensures Vote(store, storyId, userId, score).0 != Counted ==> Vote(store, storyId, userId, score).1 == store
  {
  }

  /** The vote fails exactly when the story has an entry without a `votes`
      list and the vote is not a repeat. */
  lemma VoteFails(store: Store, storyId: string, userId: string, score: int)
    ensures Vote(store, storyId, userId, score).0 == Failed <==>
      !HasScore(store, storyId, userId, score) && storyId in store && store[storyId].votes.None?
  {
  }

  /** A counted vote leaves the user with the new score, every other user
      with theirs, and every other story as it was. */
  lemma VoteCounted(store: Store, storyId: string, userId: string, score: int, after: Store)
    requires Vote(store, storyId, userId, score) == (Counted, after)
    ensures after.Keys == store.Keys + {storyId}
    ensures forall id :: id in store && id != storyId ==> after[id] == store[id]
    ensures after[storyId].userVotes.Some? && after[storyId].votes.Some?
    ensures after[storyId].userVotes.value == Prepared(store, storyId).userVotes.value[userId := score]
    ensures userId in after[storyId].userVotes.value && after[storyId].userVotes.value[userId] == score
  {
  }

  /** A first vote from a user appends the score: one more vote. */
  lemma CastFresh(rec: Record, userId: string, score: int)
    requires rec.votes.Some? && rec.userVotes.Some? && userId !in rec.userVotes.value
    ensures Cast(rec, userId, score).votes.value == rec.votes.value + [score]
    ensures |Cast(rec, userId, score).votes.value| == |rec.votes.value| + 1
  {
  }

  /** A changed vote on a consistent record swaps one old score for the new
      one: as many votes as before. */
  lemma CastRevote(rec: Record, userId: string, score: int)
    requires Consistent(rec) && userId in rec.userVotes.value
    ensures rec.userVotes.value[userId] in rec.votes.value
    ensures |Cast(rec, userId, score).votes.value| == |rec.votes.value|
    ensures multiset(Cast(rec, userId, score).votes.value)
      == multiset(rec.votes.value) - multiset{rec.userVotes.value[userId]} + multiset{score}
  {
    OldScoreCounted(rec, userId);
  }

  /** In a consistent record, a user's score is among the votes. */
  lemma OldScoreCounted(rec: Record, userId: string)
    requires Consistent(rec) && userId in rec.userVotes.value
    ensures rec.userVotes.value[userId] in rec.votes.value
  {
    ValuesRemove(rec.userVotes.value, userId);
    assert rec.userVotes.value[userId] in multiset(rec.votes.value);
  }

  /** Recording a score keeps a record consistent. */
  lemma CastConsistent(rec: Record, userId: string, score: int)
    requires Consistent(rec)
    ensures Consistent(Cast(rec, userId, score))
  {
    var votes, uv := rec.votes.value, rec.userVotes.value;
    var after := Cast(rec, userId, score).votes.value;
    ValuesUpdate(uv, userId, score);
    if userId in uv {
      CastRevote(rec, userId, score);
    } else {
      assert multiset(after) == multiset(votes) + multiset{score};
    }
  }

  /** The vote update keeps every record of a consistent store consistent. */
  lemma VoteConsistent(store: Store, storyId: string, userId: string, score: int)
    requires AllConsistent(store)
    ensures AllConsistent(Vote(store, storyId, userId, score).1)
  {
    var rec := Prepared(store, storyId);
    if storyId !in store {
      ValuesEmpty();
    }
    if Vote(store, storyId, userId, score).0 == Counted {
      CastConsistent(rec, userId, score);
    }
  }

  /** A score from 1 to 5 keeps every stored score from 1 to 5. */
  lemma VoteInRange(store: Store, storyId: string, userId: string, score: int)
    requires AllInRange(store) && 1 <= score <= 5
    ensures AllInRange(Vote(store, storyId, userId, score).1)
  {
    var rec := Prepared(store, storyId);
    if Vote(store, storyId, userId, score).0 == Counted {
      var votes := rec.votes.value;
      assert ScoresInRange(votes);
      RevisedInRange(votes, rec.userVotes.value, userId);
      AppendInRange(Revised(votes, rec.userVotes.value, userId), score);
    }
  }

  /** Taking a score out keeps the rest in range. */
  lemma RevisedInRange(votes: seq<int>, userVotes: map<string, int>, userId: string)
    requires ScoresInRange(votes)
    ensures ScoresInRange(Revised(votes, userVotes, userId))
  {
    if userId in userVotes && userVotes[userId] in votes {
      var x := userVotes[userId];
      var kept := RemoveFirst(votes, x);
      var i :| 0 <= i < |votes| && RemovedAt(votes, x, kept, i);
      forall k | 0 <= k < |kept| ensures 1 <= kept[k] <= 5 {
        if k < i {
          assert kept[k] == votes[k];
        } else {
          assert kept[k] == votes[k + 1];
        }
      }
    }
  }

  lemma AppendInRange(xs: seq<int>, x: int)
    requires ScoresInRange(xs) && 1 <= x <= 5
    ensures ScoresInRange(xs + [x])
  {
    forall i | 0 <= i < |xs| + 1 ensures 1 <= (xs + [x])[i] <= 5 {
      if i < |xs| {
        assert (xs + [x])[i] == xs[i];
      }
    }
  }

  // ---------------------------------------------------------------------
  // The aggregate (bot.py:36-43)

  /** `get_average_rating` as the sum and the number of the scores; the
      average shown is `sum / count`. No entry, no `votes` list or an empty
      one give `(0, 0)`. */
  function Aggregate(store: Store, storyId: string): (int, nat) {
    if storyId in store && store[storyId].votes.Some? && store[storyId].votes.value != [] then
      (Sum(store[storyId].votes.value), |store[storyId].votes.value|)
    else (0, 0)
  }

  /** The count is zero exactly when there is nothing to average, and then
      the sum is zero too. */
  lemma AggregateEmpty(store: Store, storyId: string)
    ensures Aggregate(store, storyId).1 == 0 <==>
      storyId !in store || store[storyId].votes.None? || store[storyId].votes.value == []
    ensures Aggregate(store, storyId).1 == 0 ==> Aggregate(store, storyId).0 == 0
  {
  }

  /** For a consistent record the count is the number of users who voted. */
  lemma AggregateVoters(store: Store, storyId: string)
    requires storyId in store && Consistent(store[storyId])
    ensures Aggregate(store, storyId).1 == |store[storyId].userVotes.value|
  {
    ValuesSize(store[storyId].userVotes.value);
    assert |multiset(store[storyId].votes.value)| == |store[storyId].votes.value|;
  }

  /** With scores from 1 to 5 the average lies between 1 and 5. */
  lemma AggregateBounds(store: Store, storyId: string)
    requires AllInRange(store)
    ensures var (sum, count) := Aggregate(store, storyId); count <= sum <= 5 * count
  {
    if storyId in store && store[storyId].votes.Some? {
      assert InRange(store[storyId]);
      SumBounds(store[storyId].votes.value);
    }
  }

  /** After a counted vote on a consistent record, a first vote adds one to
      the count and its score to the sum; a changed vote keeps the count and
      moves the sum by the difference of the scores. */
  lemma VoteAggregate(store: Store, storyId: string, userId: string, score: int)
    requires Vote(store, storyId, userId, score).0 == Counted
    requires Consistent(Prepared(store, storyId))
    ensures var (sum, count) := Aggregate(store, storyId);
      var (sum', count') := Aggregate(Vote(store, storyId, userId, score).1, storyId);
      var uv := Prepared(store, storyId).userVotes.value;
      if userId in uv then count' == count && sum' == sum - uv[userId] + score
      else count' == count + 1 && sum' == sum + score
  {
    var rec := Prepared(store, storyId);
    var votes, uv := rec.votes.value, rec.userVotes.value;
    var kept := Revised(votes, uv, userId);
    SumAppend(kept, score);
    if userId in uv {
      OldScoreCounted(rec, userId);
      SumRemoveFirst(votes, uv[userId]);
    }
  }

  // ---------------------------------------------------------------------
  // The rating handler

  /** What the user is told. */
  datatype Reply =
    | Refused(error: Callback.RateError)  // the data did not parse
    | AlreadyRated                        // "Вы уже поставили такую оценку!"
    | Thanks(sum: int, count: nat)        // "Спасибо за оценку!" with the new average
    | Crashed                             // caught exception: "Произошла ошибка ..."

  /** The `rate_` branch of the button handler: parse, then vote, then report
      the new aggregate. */
  function Rate(store: Store, data: string, userId: string): (Reply, Store)
    requires Callback.IsRateData(data)
  {
    match Callback.ParseRate(data)
    case Rejected(e) => (Refused(e), store)
    case Accepted(req) =>
      var (outcome, after) := Vote(store, req.storyId, userId, req.score);
      match outcome
      case AlreadyVoted => (AlreadyRated, after)
      case Failed => (Crashed, after)
      case Counted =>
        var (sum, count) := Aggregate(after, req.storyId);
        (Thanks(sum, count), after)
  }

  /** Data that does not parse is refused before the store is touched; data
      that does is handled as the vote it encodes. */
  lemma RateRejectsFirst(store: Store, data: string, userId: string)
    requires Callback.IsRateData(data)
    ensures Callback.ParseRate(data).Rejected? ==>
      Rate(store, data, userId) == (Refused(Callback.ParseRate(data).error), store)
    ensures Callback.ParseRate(data).Accepted? ==>
      Rate(store, data, userId).1 == Vote(store, Callback.ParseRate(data).request.storyId,
                                           userId, Callback.ParseRate(data).request.score).1
  {
  }

  /** Pressing a rating button records that button's score for that story. */
  lemma RateButton(store: Store, storyId: string, score: int, userId: string)
    requires 1 <= score <= 5
    ensures Rate(store, Callback.EncodeRate(storyId, score), userId).1
      == Vote(store, storyId, userId, score).1
  {
    Callback.ParseEncode(storyId, score);
  }

  /** The stored ratings, as the bot reads and writes them. */
  class RatingStore {
    var ratings: Store

    /** No ratings file yet: `load_ratings` gives an empty dict. */
    constructor ()
      ensures ratings == map[]
    {
      ratings := map[];
    }

    /** The vote update of bot.py:322-343 on a parsed request. */
    method CastVote(storyId: string, userId: string, score: int) returns (outcome: Outcome)
      modifies this
      ensures (outcome, ratings) == Vote(old(ratings), storyId, userId, score)
    {
      var loaded := ratings;
      if storyId !in loaded {
        loaded := loaded[storyId := NewRecord];
      } else if loaded[storyId].userVotes.None? {
        loaded := loaded[storyId := loaded[storyId].(userVotes := Some(map[]))];
      }
      var rec := loaded[storyId];
      assert rec == Prepared(old(ratings), storyId);
      var userVotes := rec.userVotes.value;
      var votes := rec.votes;
      if userId in userVotes {
        var oldScore := userVotes[userId];
        if oldScore == score {
          outcome := AlreadyVoted;
          return;
        }
        if votes.None? {
          outcome := Failed;
          return;
        }
        if oldScore in votes.value {
          votes := Some(RemoveFirst(votes.value, oldScore));
        }
      }
      if votes.None? {
        outcome := Failed;
        return;
      }
      votes := Some(votes.value + [score]);
      userVotes := userVotes[userId := score];
      var cast := Record(votes, Some(userVotes));
      assert cast == Cast(rec, userId, score);
      assert loaded[storyId := cast] == old(ratings)[storyId := cast];
      loaded := loaded[storyId := cast];
      ratings := loaded;
      outcome := Counted;
    }

    /** The `rate_` branch of the button handler: a malformed request is
        answered without touching the store. */
    method HandleRate(data: string, userId: string) returns (reply: Reply)
      requires Callback.IsRateData(data)
      modifies this
      ensures (reply, ratings) == Rate(old(ratings), data, userId)
    {
      var parsed := Callback.ParseRate(data);
      if parsed.Rejected? {
        reply := Refused(parsed.error);
        return;
      }
      var outcome := CastVote(parsed.request.storyId, userId, parsed.request.score);
      match outcome {
        case AlreadyVoted => reply := AlreadyRated;
        case Failed => reply := Crashed;
        case Counted =>
          var (sum, count) := Aggregate(ratings, parsed.request.storyId);
          reply := Thanks(sum, count);
      }
    }
  }
}
