# Poll voting server: a Dafny model of the poll and auth resolvers

This project models the core of a GraphQL poll server. Authenticated users
create polls, delete their own polls, and vote once per poll. Users register
with a unique username and email and log in with a password.

Each resolver is a pure transition over an immutable store:

- `PollModel` (`poll_model.dfy`) holds the stored poll and its options.
  It defines the aggregate invariant: the option counts add up to the number
  of recorded voters, and no voter is recorded twice.
- `UserModel` (`user_model.dfy`) holds the stored user and the directory.
  The directory is kept in the store's natural order. It also defines the
  uniqueness invariant on ids, usernames and emails.
- `PollResolver` (`poll_resolver.dfy`) models `getPoll`, `getPollUser`,
  `createPoll`, `deletePoll` and `vote`.
- `AuthResolver` (`auth_resolver.dfy`) models `register` and `login`.
- `Seqs` (`seqs.dfy`) defines first-match search. This is what `findIndex`
  and a store's `findOne` do.
- `Results` (`results.dfy`) defines the result type. It carries either the
  resolver's return value or the error it throws.

A failing call returns an error and no new store, so a failed call changes
nothing. A successful mutation returns the new store in place of the
source's `'Deleted'` or `'Voted'` string.

Modelling choices:

- Poll ids are strings. A store-generated id has 24 lower-case hex digits
  (`IsObjectId`).
  - `getPoll` catches the store's failure on an id of any other form and
    reports `PollDoesNotExist` (server/src/resolvers/PollResolver.ts:30-34).
  - `vote` and `deletePoll` do not catch that failure. The model reports it
    as a separate `MalformedId` error (server/src/resolvers/PollResolver.ts:95, 111).
- The store chooses the new poll id and the new user id. Both are
  parameters, and the requires say each is fresh: not yet used in the
  store. The store also supplies the creation time. It is a parameter
  too, and any value is accepted.
- The caller of a gated mutation is an already-authenticated user id.
- Password hashing, password comparison and token signing are function
  parameters `hash`, `compare` and `sign`.
- Vote counts are `nat`. The resolvers only ever set a count to 0 or add 1.

How the code behaves, as modelled:

- `vote` reads the poll, runs its checks, changes the poll in memory and
  saves it. The model treats the whole call as one atomic step.
- `createPoll` accepts repeated option texts. A vote goes to the first
  option with the named text (`RepeatedOptionNeverGainsVotes`).
- Only `getPoll` catches a malformed id and reports `PollDoesNotExist`.
  In `vote` and `deletePoll` the store's failure escapes as `MalformedId`.
- The votes of several voters are modelled twice:
  - `VoteAll` repeats the store-level `vote`.
  - `CastAll` repeats the per-poll part of `vote`, `CastBallot`.
  `VoteAllSucceedsWithCastAll` and `VoteAllStoresCastAll` prove the two
  agree, and the lemmas about several ballots are stated over `CastAll`.

## Model

| member | source | states |
|---|---|---|
| Seqs.FirstIndex | server/src/resolvers/AuthResolver.ts:41 | the first-match search that `findOne` and `findIndex` perform: gives -1 exactly when no element matches; otherwise gives the index of a matching element that has no matching element before it |
| PollModel.OptionIndex | server/src/resolvers/PollResolver.ts:116-117 | the option a vote lands on: -1 exactly when no option has the text; otherwise an option with the text and no option with it before |
| PollModel.OptionIndexDependsOnTexts | server/src/resolvers/PollResolver.ts:116 | which option a text selects depends only on the option texts, so counting votes never changes where later votes land |
| PollModel.SumVotesOfUnvoted | server/src/resolvers/PollResolver.ts:67-70 | options that all have 0 votes add up to 0 votes |
| PollModel.SumVotesOfBump | server/src/resolvers/PollResolver.ts:128 | adding one vote to one option raises the poll's total by exactly one |
| PollResolver.GetPoll | server/src/resolvers/PollResolver.ts:30-46 | fails exactly when the id is malformed or absent, and then always with PollDoesNotExist; on success returns id, creator, creation time, question and options, and the result type has no voter list |
| PollResolver.GetPollFindsStoredPolls | server/src/resolvers/PollResolver.ts:30-38 | when every stored id is well formed, `getPoll` succeeds exactly for the ids in the store |
| PollResolver.GetPollUser | server/src/resolvers/PollResolver.ts:51-59 | one lookup by the creator id; succeeds exactly when a user has that id, and returns that id with the username of a user holding it; a missing creator is a failure |
| PollResolver.CreatorLookupIsUnique | server/src/resolvers/PollResolver.ts:53-57 | when user ids are unique, the `user` field carries the username of the one user with the creator's id |
| PollResolver.NewOptions | server/src/resolvers/PollResolver.ts:67-70 | one option per input text, same length and order, each with the input's text and 0 votes; repeated texts are kept |
| PollResolver.CreatePoll | server/src/resolvers/PollResolver.ts:67-79 | adds exactly one poll under the fresh id and leaves other polls unchanged; the new poll's creator is the caller, its time is the store's clock, its options are the input texts with 0 votes, and `votedBy` is empty; the response is that poll without a voter list |
| PollResolver.CreatePollKeepsInvariant | server/src/resolvers/PollResolver.ts:67-78 | a new poll has total votes 0 = size of its empty `votedBy`, so creation keeps the store invariant |
| PollResolver.CreatedPollIsRetrievable | server/src/resolvers/PollResolver.ts:78-81 | querying the new id returns exactly the response creation returned |
| PollResolver.DeletePoll | server/src/resolvers/PollResolver.ts:90-101 | succeeds exactly when the poll exists and its creator is the caller, and then removes only that poll; any other well-formed id fails with PollDoesNotExist |
| PollResolver.NotOwnerLooksAbsent | server/src/resolvers/PollResolver.ts:90-98 | deleting another user's poll gives the same failure as deleting a poll that is absent |
| PollResolver.DeletePollKeepsInvariant | server/src/resolvers/PollResolver.ts:95-99 | deletion keeps the store invariant |
| PollResolver.DeletedPollIsGone | server/src/resolvers/PollResolver.ts:95-99 | after a successful deletion, querying that id fails with PollDoesNotExist |
| PollResolver.CastBallot | server/src/resolvers/PollResolver.ts:116-129 | the checks and update of `vote` on a found poll: no option with the text fails with OptionDoesNotExist, before a caller already in `votedBy` fails with VotedTwice; succeeds exactly when both checks pass, and then adds one vote to the first matching option only, appends the caller and raises the total by one |
| PollResolver.BumpIsOneMoreVote | server/src/resolvers/PollResolver.ts:128 | adding one to the option the text selects is one more vote for the first option with that text, with texts and other counts unchanged |
| PollResolver.BallotLandsOnOptionIndex | server/src/resolvers/PollResolver.ts:116-128 | a counted ballot keeps the option texts and adds one vote to the option the text selects and to no other |
| PollResolver.Vote | server/src/resolvers/PollResolver.ts:111-130 | checks in order: malformed id, missing poll (PollDoesNotExist), no option with the text (OptionDoesNotExist), caller already in `votedBy` (VotedTwice); succeeds exactly when all checks pass, then adds one vote to the first matching option only, appends the caller to `votedBy`, raises the total by one and changes nothing else |
| PollResolver.VoteKeepsInvariant | server/src/resolvers/PollResolver.ts:121-130 | a successful vote keeps "total votes = size of `votedBy`, no duplicate voters" |
| PollResolver.SecondVoteFails | server/src/resolvers/PollResolver.ts:121-126 | after a counted vote, a second vote by the same user on that poll never succeeds, and on the same option it fails with VotedTwice |
| PollResolver.VoteCastsOnStoredPoll | server/src/resolvers/PollResolver.ts:111-130 | on a well-formed stored id, `vote` fails with the per-poll ballot's error or stores the ballot's result under that id and changes nothing else |
| PollResolver.VoteAllSucceedsWithCastAll | server/src/resolvers/PollResolver.ts:111-130 | repeated `vote` calls on a stored poll all succeed exactly when the same ballots succeed on that poll one after another |
| PollResolver.VoteAllStoresCastAll | server/src/resolvers/PollResolver.ts:111-130 | when they succeed, repeated `vote` calls leave the store holding the resulting poll under that id and every other poll unchanged |
| PollResolver.VotesForDependsOnTexts | server/src/resolvers/PollResolver.ts:116 | how many ballots select each option depends only on the option texts |
| PollResolver.BallotsRecordVoters | server/src/resolvers/PollResolver.ts:128-129 | after any successful run of ballots, `votedBy` is the old list followed by the ballots' voters in order, and creator, time and question are unchanged |
| PollResolver.BallotsLandPerOption | server/src/resolvers/PollResolver.ts:116-128 | after any successful run of ballots, the option texts and order are unchanged and each option's count has risen by exactly the number of ballots whose first matching option it is |
| PollResolver.DistinctBallotsSucceed | server/src/resolvers/PollResolver.ts:111-130 | ballots of distinct voters not yet in `votedBy`, each naming an existing option, all succeed, and the total rises by their number |
| PollResolver.DistinctVotersAllCounted | server/src/resolvers/PollResolver.ts:111-130 | N distinct new voters, each naming an existing option, all succeed; the total rises by N, each option gains exactly the ballots that select it (first match by text), and `votedBy` becomes the old list followed by the N voters in ballot order |
| PollResolver.RepeatedOptionNeverGainsVotes | server/src/resolvers/PollResolver.ts:116 | if two options share a text, the later one never gains a vote |
| AuthResolver.Register | server/src/resolvers/AuthResolver.ts:17-34 | a taken username fails with UsernameInUse before the email is looked at; a free username with a taken email fails with EmailInUse; otherwise exactly one user is appended with the given email and username and the hash of the password, earlier users are unchanged, and the token is signed for the new id |
| AuthResolver.RegisterKeepsInvariant | server/src/resolvers/AuthResolver.ts:17-32 | registration keeps ids, usernames and emails unique |
| AuthResolver.Login | server/src/resolvers/AuthResolver.ts:41-52 | every failure is WrongCredentials, whether the username is unknown or the password is wrong; succeeds exactly when the first user with the username has a stored hash that `compare` accepts, and returns that user's token; the directory is only read |
| AuthResolver.LoginMatchesTheUser | server/src/resolvers/AuthResolver.ts:41-52 | when usernames are unique, login for a user succeeds with that user's token exactly when the password matches that user's hash |
| AuthResolver.RegisteredUserCanLogIn | server/src/resolvers/AuthResolver.ts:30-52 | when `compare` accepts each password against its own hash, logging in right after registering yields the token registration returned |

The datatypes `PollModel.Poll` and `PollModel.PollOption` follow the record
shape in server/src/models/Poll.ts:3-14:

- A poll is a creator id, a creation time, a question, an ordered option
  list and a list of voter ids.
- An option is a text and a vote count.

`UserModel.UserDoc` follows server/src/models/User.ts:3-7 and adds the
store-assigned id. The poll schema enforces no uniqueness on `votedBy`
(server/src/models/Poll.ts:23). The user schema has no unique index
(server/src/models/User.ts:9-13). So `PollInvariant` and
`DirectoryInvariant` rest only on the resolver logic, and the lemmas above
prove it keeps them.

## Left out

- Concurrency: the gap between read and save in `vote`, and between check
  and create in `register`, is not modelled. Each call is one atomic step.
- Authentication middleware: the `Unauthenticated` path is not modelled.
  The caller is always a verified user id.
- Id forms: the store driver also accepts 12-byte strings and upper-case
  hex as ids. The model treats them as malformed.
- Creator lookup batching, listing, pagination, poll counts, `totalVotes`
  and has-voted queries: none of them exist in these resolvers.
- Hashing and tokens: bcrypt's cost factor and random salt and the token
  format are not modelled. `hash` stands for one hashing call, salt
  included.
- Time: `Date.now` is an abstract natural-number timestamp supplied by the
  store.
- Store failures: connectivity failures and other infrastructure errors
  are not modelled.
- Schema coercion: vote counts are not modelled as arbitrary JavaScript
  numbers.
- The test fixture that creates a user and the client layout components
  hold no resolver logic.
