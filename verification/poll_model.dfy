/** The persisted shape of a poll (server/src/models/Poll.ts) and the
    aggregate invariant the resolvers are meant to keep on it. The schema
    itself enforces no invariant: a vote count is a plain number and
    `votedBy` a plain array of user references. */
module PollModel {
  import opened Seqs
  import opened UserModel

  /** Poll ids are strings as the resolvers receive them. */
  type PollId = string

  /** Creation time as an abstract clock reading. */
  type Timestamp = nat

  /** One answer of a poll: its text and how many votes it has. */
  datatype PollOption = PollOption(text: string, votes: nat)

  /** A stored poll. `userId` refers to the creating user; `votedBy` lists
      every user that has voted, in voting order. The poll's own id is the
      key it is stored under. */
  datatype Poll = Poll(
    userId: UserId,
    creationTime: Timestamp,
    question: string,
    options: seq<PollOption>,
    votedBy: seq<UserId>)

  /** The store: poll id to poll. */
  type PollStore = map<PollId, Poll>

  /** The form of an id the store generates: 24 lower-case hexadecimal
      digits. A query with an id of another form is rejected by the store
      when it casts the id. */
  predicate IsObjectId(id: string) {
    |id| == 24 && forall i :: 0 <= i < |id| ==> id[i] in "0123456789abcdef"
  }

  /** Sum of the vote counts of `options`. */
  function SumVotes(options: seq<PollOption>): nat {
    if |options| == 0 then 0 else options[0].votes + SumVotes(options[1..])
  }

  /** The aggregate invariant: every recorded voter is counted exactly once. */
  predicate PollInvariant(p: Poll) {
    SumVotes(p.options) == |p.votedBy| && NoDuplicates(p.votedBy)
  }

  /** Every poll keeps the aggregate invariant and is stored under an id of
      the generated form. */
  predicate StoreInvariant(store: PollStore) {
    forall id :: id in store ==> IsObjectId(id) && PollInvariant(store[id])
  }

  /** Index of the first option whose text is `text`, or -1 when there is
      none: the option a vote for `text` lands on. */
  function OptionIndex(options: seq<PollOption>, text: string): (k: int)
    ensures -1 <= k < |options|
    ensures k == -1 <==> forall j :: 0 <= j < |options| ==> options[j].text != text
    ensures 0 <= k ==> options[k].text == text && forall j :: 0 <= j < k ==> options[j].text != text
  {
    FirstIndex(options, (o: PollOption) => o.text == text)
  }

  /** Two option lists with the same texts in the same order. */
  predicate SameTexts(a: seq<PollOption>, b: seq<PollOption>) {
    |a| == |b| && forall j :: 0 <= j < |a| ==> a[j].text == b[j].text
  }

  /** Which option a text selects depends only on the option texts, not on
      the counts. */
  lemma OptionIndexDependsOnTexts(a: seq<PollOption>, b: seq<PollOption>, text: string)
    requires SameTexts(a, b)
    ensures OptionIndex(a, text) == OptionIndex(b, text)
  {
    var ka, kb := OptionIndex(a, text), OptionIndex(b, text);
    if ka != -1 {
      assert b[ka].text == text;
    }
    if kb != -1 {
      assert a[kb].text == text;
    }
  }

  /** The option list after one more vote for the option at index `i`. */
  function Bump(options: seq<PollOption>, i: nat): seq<PollOption>
    requires i < |options|
  {
    options[i := options[i].(votes := options[i].votes + 1)]
  }

  /** Options that nobody has voted for add up to zero votes. */
  lemma {:induction false} SumVotesOfUnvoted(options: seq<PollOption>)
    requires forall j :: 0 <= j < |options| ==> options[j].votes == 0
    ensures SumVotes(options) == 0
  {
    if |options| > 0 {
      SumVotesOfUnvoted(options[1..]);
    }
  }

  /** One more vote on one option raises the total by exactly one. */
  lemma {:induction false} SumVotesOfBump(options: seq<PollOption>, i: nat)
    requires i < |options|
    ensures SumVotes(Bump(options, i)) == SumVotes(options) + 1
  {
    if i == 0 {
      assert Bump(options, i)[1..] == options[1..];
    } else {
      assert Bump(options, i)[1..] == Bump(options[1..], i - 1);
      SumVotesOfBump(options[1..], i - 1);
    }
  }
}
