/** The poll resolver (server/src/resolvers/PollResolver.ts) as pure
    transitions over the poll store. Each mutation is one atomic step: the
    read, the checks and the write of the source happen with no other
    request in between. The caller is the already-authenticated user id. */
module PollResolver {
  import opened Results
  import opened Seqs
  import opened UserModel
  import opened PollModel

  /** The errors the resolver raises. The first three are the domain errors
      it throws itself. `MalformedId` is the store's failure to cast an id
      that is not of the generated form, which `vote` and `deletePoll` do
      not catch. `CreatorMissing` is the failure of dereferencing a creator
      lookup that found nobody. */
  datatype PollError =
    | PollDoesNotExist
    | OptionDoesNotExist
    | VotedTwice
    | MalformedId
    | CreatorMissing

  /** What the poll query and poll creation hand back: the stored poll
      without its voter list. */
  datatype PollView = PollView(
    id: PollId,
    userId: UserId,
    creationTime: Timestamp,
    question: string,
    options: seq<PollOption>)

  /** The `user` field of a poll: the creator's id and username. */
  datatype PollUser = PollUser(id: UserId, username: string)

  /** The store after creation, and the response. */
  datatype Created = Created(store: PollStore, poll: PollView)

  /** One vote request: who votes, for which option text. */
  datatype Ballot = Ballot(voter: UserId, option: string)

  function View(id: PollId, p: Poll): PollView {
    PollView(id, p.userId, p.creationTime, p.question, p.options)
  }

  predicate HasOption(p: Poll, text: string) {
    exists j :: 0 <= j < |p.options| && p.options[j].text == text
  }

  /** `options` is `before` with one more vote on the first option whose
      text is `text`, and nothing else changed. */
  ghost predicate OneMoreVoteFor(before: seq<PollOption>, after: seq<PollOption>, text: string) {
    && |after| == |before|
    && exists k ::
      && 0 <= k < |before|
      && before[k].text == text
      && (forall j :: 0 <= j < k ==> before[j].text != text)
      && (forall j :: 0 <= j < |before| ==>
            && after[j].text == before[j].text
            && after[j].votes == if j == k then before[j].votes + 1 else before[j].votes)
  }

  /** `after` is poll `before` with `voter`'s vote for `option` counted:
      its creator, time, question and option texts and order are
      unchanged. */
  ghost predicate BallotCounted(before: Poll, after: Poll, option: string, voter: UserId) {
    && after.userId == before.userId
    && after.creationTime == before.creationTime
    && after.question == before.question
    && OneMoreVoteFor(before.options, after.options, option)
    && after.votedBy == before.votedBy + [voter]
  }

  /** `after` is `before` with `voter`'s vote for `option` counted in poll
      `id` and every other poll unchanged. */
  ghost predicate VoteRecorded(before: PollStore, after: PollStore, id: PollId, option: string, voter: UserId) {
    && id in before
    && after.Keys == before.Keys
    && (forall k :: k in before && k != id ==> after[k] == before[k])
    && BallotCounted(before[id], after[id], option, voter)
  }

  /** `poll(id)`: a malformed id (the store's lookup throws) and an absent
      id both fail with PollDoesNotExist; otherwise the poll is returned
      without its voter list. */
  function GetPoll(store: PollStore, id: PollId): (r: Result<PollView, PollError>)
    ensures r.Ok? <==> IsObjectId(id) && id in store
    ensures r.Err? ==> r.error == PollDoesNotExist
    ensures r.Ok? ==>
      && r.value.id == id
      && r.value.userId == store[id].userId
      && r.value.creationTime == store[id].creationTime
      && r.value.question == store[id].question
      && r.value.options == store[id].options
  {
    if !IsObjectId(id) then Err(PollDoesNotExist)
    else if id !in store then Err(PollDoesNotExist)
    else Ok(View(id, store[id]))
  }

  /** Field `user` of a poll: one lookup of the creator by id. The source
      dereferences the result unconditionally, so a missing creator is a
      failure. */
  function GetPollUser(users: Directory, poll: PollView): (r: Result<PollUser, PollError>)
    ensures r.Ok? <==> IdTaken(users, poll.userId)
    ensures r.Err? ==> r.error == CreatorMissing
    ensures r.Ok? ==>
      && r.value.id == poll.userId
      && exists i :: 0 <= i < |users| && users[i].id == poll.userId && users[i].username == r.value.username
  {
    var i := FirstIndex(users, (u: UserDoc) => u.id == poll.userId);
    if i == -1 then Err(CreatorMissing) else Ok(PollUser(poll.userId, users[i].username))
  }

  /** The options of a new poll: one per input text, in input order, each
      with no votes. Repeated texts are kept. */
  function NewOptions(texts: seq<string>): (options: seq<PollOption>)
    ensures |options| == |texts|
    ensures forall i :: 0 <= i < |texts| ==> options[i].text == texts[i] && options[i].votes == 0
  {
    if |texts| == 0 then [] else [PollOption(texts[0], 0)] + NewOptions(texts[1..])
  }

  /** `createPoll`: the store supplies a fresh id and the creation time; the
      creator is the caller and nobody has voted yet. */
  function CreatePoll(store: PollStore, caller: UserId, question: string, texts: seq<string>,
                      newId: PollId, now: Timestamp): (r: Created)
    requires IsObjectId(newId) && newId !in store
    ensures r.store.Keys == store.Keys + {newId}
    ensures forall id :: id in store ==> r.store[id] == store[id]
    ensures r.store[newId].userId == caller
    ensures r.store[newId].creationTime == now
    ensures r.store[newId].question == question
    ensures |r.store[newId].options| == |texts|
    ensures forall i :: 0 <= i < |texts| ==> r.store[newId].options[i] == PollOption(texts[i], 0)
    ensures r.store[newId].votedBy == []
    ensures r.poll == View(newId, r.store[newId])
  {
    var p := Poll(caller, now, question, NewOptions(texts), []);
    Created(store[newId := p], View(newId, p))
  }

  /** `deletePoll`: succeeds only for an existing poll of the caller, and
      then removes exactly that poll. A poll of someone else is reported as
      absent. */
  function DeletePoll(store: PollStore, id: PollId, caller: UserId): (r: Result<PollStore, PollError>)
    ensures !IsObjectId(id) ==> r == Err(MalformedId)
    ensures r.Ok? <==> IsObjectId(id) && id in store && store[id].userId == caller
    ensures IsObjectId(id) && r.Err? ==> r.error == PollDoesNotExist
    ensures r.Ok? ==> r.value.Keys == store.Keys - {id}
    ensures r.Ok? ==> forall k :: k in r.value ==> r.value[k] == store[k]
  {
    if !IsObjectId(id) then Err(MalformedId)
    else if id in store && store[id].userId == caller then Ok(store - {id})
    else Err(PollDoesNotExist)
  }

  /** The checks of `vote` once the poll is found: the option must exist,
      then the caller must not have voted; only then is one vote added to
      the first option with the text and the caller recorded. */
  function CastBallot(p: Poll, option: string, voter: UserId): (r: Result<Poll, PollError>)
    ensures !HasOption(p, option) ==> r == Err(OptionDoesNotExist)
    ensures HasOption(p, option) && voter in p.votedBy ==> r == Err(VotedTwice)
    ensures r.Ok? <==> HasOption(p, option) && voter !in p.votedBy
    ensures r.Ok? ==> BallotCounted(p, r.value, option, voter)
    ensures r.Ok? ==> SumVotes(r.value.options) == SumVotes(p.options) + 1
  {
    var k := OptionIndex(p.options, option);
    if k == -1 then Err(OptionDoesNotExist)
    else if voter in p.votedBy then Err(VotedTwice)
    else
      SumVotesOfBump(p.options, k);
      BumpIsOneMoreVote(p.options, option);
      Ok(p.(options := Bump(p.options, k), votedBy := p.votedBy + [voter]))
  }

  /** Bumping the option a text selects is one more vote for that text. */
  lemma BumpIsOneMoreVote(options: seq<PollOption>, text: string)
    requires OptionIndex(options, text) != -1
    ensures OneMoreVoteFor(options, Bump(options, OptionIndex(options, text)), text)
  {
    var k := OptionIndex(options, text);
    var after := Bump(options, k);
    assert forall j :: 0 <= j < |options| ==>
      && after[j].text == options[j].text
      && after[j].votes == if j == k then options[j].votes + 1 else options[j].votes;
  }

  /** `vote`: the poll must exist, then the option must exist, then the
      caller must not have voted; only then is one vote counted and the
      caller recorded, in that poll alone. */
  function Vote(store: PollStore, id: PollId, option: string, voter: UserId): (r: Result<PollStore, PollError>)
    ensures !IsObjectId(id) ==> r == Err(MalformedId)
    ensures IsObjectId(id) && id !in store ==> r == Err(PollDoesNotExist)
    ensures IsObjectId(id) && id in store && !HasOption(store[id], option) ==> r == Err(OptionDoesNotExist)
    ensures IsObjectId(id) && id in store && HasOption(store[id], option) && voter in store[id].votedBy ==>
              r == Err(VotedTwice)
    ensures r.Ok? <==> IsObjectId(id) && id in store && HasOption(store[id], option) && voter !in store[id].votedBy
    ensures r.Ok? ==> VoteRecorded(store, r.value, id, option, voter)
    ensures r.Ok? ==> SumVotes(r.value[id].options) == SumVotes(store[id].options) + 1
  {
    if !IsObjectId(id) then Err(MalformedId)
    else if id !in store then Err(PollDoesNotExist)
    else
      var q :- CastBallot(store[id], option, voter);
      Ok(store[id := q])
  }

  /** Votes cast one after another on the same poll, stopping at the first
      failure. */
  function CastAll(p: Poll, ballots: seq<Ballot>): Result<Poll, PollError>
    decreases |ballots|
  {
    if |ballots| == 0 then Ok(p)
    else
      match CastBallot(p, ballots[0].option, ballots[0].voter)
      case Err(e) => Err(e)
      case Ok(next) => CastAll(next, ballots[1..])
  }

  /** `vote` called once per ballot on poll `id` of the store, stopping at
      the first failure. */
  function VoteAll(store: PollStore, id: PollId, ballots: seq<Ballot>): Result<PollStore, PollError>
    decreases |ballots|
  {
    if |ballots| == 0 then Ok(store)
    else
      var next :- Vote(store, id, ballots[0].option, ballots[0].voter);
      VoteAll(next, id, ballots[1..])
  }

  /** The voters of `ballots`, in order. */
  function Voters(ballots: seq<Ballot>): seq<UserId> {
    if |ballots| == 0 then [] else [ballots[0].voter] + Voters(ballots[1..])
  }

  /** How many of `ballots` select option `j`, that is, name a text whose
      first occurrence among `options` is at index `j`. */
  function VotesFor(options: seq<PollOption>, ballots: seq<Ballot>, j: int): nat {
    if |ballots| == 0 then 0
    else
      (if OptionIndex(options, ballots[0].option) == j then 1 else 0) + VotesFor(options, ballots[1..], j)
  }

  lemma {:induction false} VotesForDependsOnTexts(a: seq<PollOption>, b: seq<PollOption>, ballots: seq<Ballot>, j: int)
    requires SameTexts(a, b)
    ensures VotesFor(a, ballots, j) == VotesFor(b, ballots, j)
  {
    if |ballots| > 0 {
      OptionIndexDependsOnTexts(a, b, ballots[0].option);
      VotesForDependsOnTexts(a, b, ballots[1..], j);
    }
  }

  /** Under the store invariant, the poll query fails exactly for ids that
      are not in the store. */
  lemma GetPollFindsStoredPolls(store: PollStore, id: PollId)
    requires StoreInvariant(store)
    ensures GetPoll(store, id).Ok? <==> id in store
  {
  }

  /** When user ids are unique, the creator lookup returns the username of
      the one user with the poll's creator id. */
  lemma CreatorLookupIsUnique(users: Directory, poll: PollView, i: nat)
    requires DirectoryInvariant(users)
    requires i < |users| && users[i].id == poll.userId
    ensures GetPollUser(users, poll) == Ok(PollUser(poll.userId, users[i].username))
  {
  }

  /** A new poll satisfies the aggregate invariant, so creation keeps the
      store invariant. */
  lemma CreatePollKeepsInvariant(store: PollStore, caller: UserId, question: string, texts: seq<string>,
                                 newId: PollId, now: Timestamp)
    requires StoreInvariant(store)
    requires IsObjectId(newId) && newId !in store
    ensures StoreInvariant(CreatePoll(store, caller, question, texts, newId, now).store)
  {
    var r := CreatePoll(store, caller, question, texts, newId, now);
    SumVotesOfUnvoted(r.store[newId].options);
  }

  /** The poll query returns what creation returned, for the new id. */
  lemma CreatedPollIsRetrievable(store: PollStore, caller: UserId, question: string, texts: seq<string>,
                                 newId: PollId, now: Timestamp)
    requires IsObjectId(newId) && newId !in store
    ensures var r := CreatePoll(store, caller, question, texts, newId, now);
      GetPoll(r.store, newId) == Ok(r.poll)
  {
  }

  /** Deletion keeps the store invariant. */
  lemma DeletePollKeepsInvariant(store: PollStore, id: PollId, caller: UserId)
    requires StoreInvariant(store)
    requires DeletePoll(store, id, caller).Ok?
    ensures StoreInvariant(DeletePoll(store, id, caller).value)
  {
  }

  /** After a successful deletion the poll query fails for that id. */
  lemma DeletedPollIsGone(store: PollStore, id: PollId, caller: UserId)
    requires DeletePoll(store, id, caller).Ok?
    ensures GetPoll(DeletePoll(store, id, caller).value, id) == Err(PollDoesNotExist)
  {
  }

  /** Deleting someone else's poll gives the same answer as deleting a poll
      that is not there. */
  lemma NotOwnerLooksAbsent(store: PollStore, id: PollId, caller: UserId)
    requires id in store && store[id].userId != caller
    ensures DeletePoll(store, id, caller) == DeletePoll(store - {id}, id, caller)
    ensures DeletePoll(store, id, caller).Err?
  {
  }

  /** A successful vote keeps the store invariant: one more vote and one
      more, previously absent, voter. */
  lemma VoteKeepsInvariant(store: PollStore, id: PollId, option: string, voter: UserId)
    requires StoreInvariant(store)
    requires Vote(store, id, option, voter).Ok?
    ensures StoreInvariant(Vote(store, id, option, voter).value)
  {
  }

  /** Once a vote of `voter` on poll `id` has been counted, no later vote of
      the same voter on that poll succeeds; on the same option it fails
      with VotedTwice. */
  lemma SecondVoteFails(store: PollStore, id: PollId, option: string, other: string, voter: UserId)
    requires IsObjectId(id) && id in store
    requires HasOption(store[id], option) && voter !in store[id].votedBy
    ensures Vote(Vote(store, id, option, voter).value, id, other, voter).Err?
    ensures Vote(Vote(store, id, option, voter).value, id, option, voter) == Err(VotedTwice)
  {
  }

  /** A counted ballot adds its vote to the option `OptionIndex` selects
      and to no other. */
  lemma BallotLandsOnOptionIndex(p: Poll, option: string, voter: UserId)
    requires CastBallot(p, option, voter).Ok?
    ensures SameTexts(p.options, CastBallot(p, option, voter).value.options)
    ensures forall j :: 0 <= j < |p.options| ==>
      CastBallot(p, option, voter).value.options[j].votes ==
        p.options[j].votes + if j == OptionIndex(p.options, option) then 1 else 0
  {
    var k := OptionIndex(p.options, option);
    assert CastBallot(p, option, voter).value.options == Bump(p.options, k);
  }

  /** Whenever a run of ballots on one poll succeeds, the voters are
      recorded in ballot order and the poll's creator, time and question
      are unchanged. */
  lemma {:induction false} BallotsRecordVoters(p: Poll, ballots: seq<Ballot>)
    requires CastAll(p, ballots).Ok?
    ensures CastAll(p, ballots).value.userId == p.userId
    ensures CastAll(p, ballots).value.creationTime == p.creationTime
    ensures CastAll(p, ballots).value.question == p.question
    ensures CastAll(p, ballots).value.votedBy == p.votedBy + Voters(ballots)
    decreases |ballots|
  {
    if |ballots| > 0 {
      var b := ballots[0];
      var rest := ballots[1..];
      assert CastBallot(p, b.option, b.voter).Ok?;
      var next := CastBallot(p, b.option, b.voter).value;
      assert CastAll(p, ballots) == CastAll(next, rest);
      BallotsRecordVoters(next, rest);
      assert Voters(ballots) == [b.voter] + Voters(rest);
      assert (p.votedBy + [b.voter]) + Voters(rest) == p.votedBy + ([b.voter] + Voters(rest));
    }
  }

  /** Whenever a run of ballots on one poll succeeds, the option texts and
      order are unchanged and each option has gained exactly the ballots
      that select it. */
  lemma {:induction false} BallotsLandPerOption(p: Poll, ballots: seq<Ballot>)
    requires CastAll(p, ballots).Ok?
    ensures SameTexts(p.options, CastAll(p, ballots).value.options)
    ensures forall j :: 0 <= j < |p.options| ==>
      CastAll(p, ballots).value.options[j].votes == p.options[j].votes + VotesFor(p.options, ballots, j)
    decreases |ballots|
  {
    if |ballots| > 0 {
      var b := ballots[0];
      var rest := ballots[1..];
      assert CastBallot(p, b.option, b.voter).Ok?;
      var next := CastBallot(p, b.option, b.voter).value;
      assert CastAll(p, ballots) == CastAll(next, rest);
      BallotsLandPerOption(next, rest);
      BallotLandsOnOptionIndex(p, b.option, b.voter);
      var last := CastAll(next, rest).value;
      forall j | 0 <= j < |p.options|
        ensures last.options[j].votes == p.options[j].votes + VotesFor(p.options, ballots, j)
      {
        VotesForDependsOnTexts(next.options, p.options, rest, j);
      }
    }
  }

  /** Ballots of distinct voters who have not voted yet, each naming an
      existing option, all succeed, and each adds one vote to the total. */
  lemma {:induction false} DistinctBallotsSucceed(p: Poll, ballots: seq<Ballot>)
    requires forall i :: 0 <= i < |ballots| ==> HasOption(p, ballots[i].option)
    requires forall i :: 0 <= i < |ballots| ==> ballots[i].voter !in p.votedBy
    requires forall i, j :: 0 <= i < j < |ballots| ==> ballots[i].voter != ballots[j].voter
    ensures CastAll(p, ballots).Ok?
    ensures SumVotes(CastAll(p, ballots).value.options) == SumVotes(p.options) + |ballots|
    decreases |ballots|
  {
    if |ballots| > 0 {
      var b := ballots[0];
      var next := CastBallot(p, b.option, b.voter).value;
      var rest := ballots[1..];
      forall i | 0 <= i < |rest|
        ensures HasOption(next, rest[i].option)
        ensures rest[i].voter !in next.votedBy
      {
        assert rest[i] == ballots[i + 1];
        var j :| 0 <= j < |p.options| && p.options[j].text == rest[i].option;
        assert next.options[j].text == rest[i].option;
      }
      DistinctBallotsSucceed(next, rest);
    }
  }

  /** Distinct voters who have not voted yet, each naming an existing
      option, all get their vote counted: none is lost, each option gains
      exactly the ballots that select it, and the voters are recorded in
      ballot order. */
  lemma DistinctVotersAllCounted(p: Poll, ballots: seq<Ballot>)
    requires forall i :: 0 <= i < |ballots| ==> HasOption(p, ballots[i].option)
    requires forall i :: 0 <= i < |ballots| ==> ballots[i].voter !in p.votedBy
    requires forall i, j :: 0 <= i < j < |ballots| ==> ballots[i].voter != ballots[j].voter
    ensures CastAll(p, ballots).Ok?
    ensures SumVotes(CastAll(p, ballots).value.options) == SumVotes(p.options) + |ballots|
    ensures SameTexts(p.options, CastAll(p, ballots).value.options)
    ensures forall j :: 0 <= j < |p.options| ==>
      CastAll(p, ballots).value.options[j].votes == p.options[j].votes + VotesFor(p.options, ballots, j)
    ensures CastAll(p, ballots).value.votedBy == p.votedBy + Voters(ballots)
  {
    DistinctBallotsSucceed(p, ballots);
    BallotsRecordVoters(p, ballots);
    BallotsLandPerOption(p, ballots);
  }

  /** On a well-formed stored id, `vote` is the ballot cast on that poll
      alone: it fails with the ballot's error, or stores the ballot's result
      under `id`. */
  lemma VoteCastsOnStoredPoll(store: PollStore, id: PollId, option: string, voter: UserId)
    requires IsObjectId(id) && id in store
    ensures Vote(store, id, option, voter) ==
      match CastBallot(store[id], option, voter)
      case Err(e) => Err(e)
      case Ok(q) => Ok(store[id := q])
  {
  }

  /** Repeated `vote` calls on a stored poll succeed exactly when the
      ballots, cast on that poll one after another, succeed. */
  lemma {:induction false} VoteAllSucceedsWithCastAll(store: PollStore, id: PollId, ballots: seq<Ballot>)
    requires IsObjectId(id) && id in store
    ensures VoteAll(store, id, ballots).Ok? <==> CastAll(store[id], ballots).Ok?
    decreases |ballots|
  {
    if |ballots| > 0 {
      var b := ballots[0];
      var rest := ballots[1..];
      VoteCastsOnStoredPoll(store, id, b.option, b.voter);
      var cast := CastBallot(store[id], b.option, b.voter);
      if cast.Ok? {
        var next := store[id := cast.value];
        assert Vote(store, id, b.option, b.voter) == Ok(next);
        assert VoteAll(store, id, ballots) == VoteAll(next, id, rest);
        assert CastAll(store[id], ballots) == CastAll(cast.value, rest);
        VoteAllSucceedsWithCastAll(next, id, rest);
      } else {
        assert Vote(store, id, b.option, b.voter).Err?;
        assert VoteAll(store, id, ballots).Err?;
        assert CastAll(store[id], ballots).Err?;
      }
    }
  }

  /** When the ballots succeed on a stored poll, the repeated `vote` calls
      leave the store holding the resulting poll under `id` and every other
      poll unchanged. */
  lemma {:induction false} VoteAllStoresCastAll(store: PollStore, id: PollId, ballots: seq<Ballot>)
    requires IsObjectId(id) && id in store
    requires CastAll(store[id], ballots).Ok?
    ensures VoteAll(store, id, ballots) == Ok(store[id := CastAll(store[id], ballots).value])
    decreases |ballots|
  {
    if |ballots| == 0 {
      assert store[id := store[id]] == store;
    } else {
      var b := ballots[0];
      var rest := ballots[1..];
      VoteCastsOnStoredPoll(store, id, b.option, b.voter);
      assert CastBallot(store[id], b.option, b.voter).Ok?;
      var q := CastBallot(store[id], b.option, b.voter).value;
      var next := store[id := q];
      assert Vote(store, id, b.option, b.voter) == Ok(next);
      assert VoteAll(store, id, ballots) == VoteAll(next, id, rest);
      assert CastAll(store[id], ballots) == CastAll(q, rest);
      assert next[id] == q && CastAll(q, rest).Ok?;
      VoteAllStoresCastAll(next, id, rest);
      var final := CastAll(q, rest).value;
      assert CastAll(store[id], ballots).value == final;
      assert VoteAll(next, id, rest) == Ok(next[id := final]);
      assert next[id := final] == store[id := final] by {
        assert next[id := final].Keys == store[id := final].Keys;
        forall k | k in store
          ensures next[id := final][k] == store[id := final][k]
        {
        }
      }
    }
  }

  /** Option texts may repeat; a vote always lands on the first option with
      the text, so a later option with a repeated text never gains a vote. */
  lemma RepeatedOptionNeverGainsVotes(store: PollStore, id: PollId, option: string, voter: UserId, i: nat, j: nat)
    requires Vote(store, id, option, voter).Ok?
    requires i < j < |store[id].options|
    requires store[id].options[i].text == store[id].options[j].text
    ensures Vote(store, id, option, voter).value[id].options[j] == store[id].options[j]
  {
  }
}
