# Music recommendation core in Dafny

This project models the core of a music-streaming application:

- **The user-item matrix** (`buildUserItemMatrix`). Every stored user gets a
  row, and the row maps each track the user has a `UserTrack` record for to
  that record's play count.
- **User-based collaborative filtering** (`calculateSimilarity`,
  `getRecommendations`). Two users are compared by the cosine similarity of
  their play counts, restricted to the tracks both have. A track the target
  user does not have is scored by summing, over every other user who has it,
  that user's similarity times their play count. The ten best-scored tracks
  are returned.
- **The front end's player state** (`MusicPlayerProvider`). It tracks whether
  a track is playing, which track is current, and the volume. Four
  transitions change them: play, pause, stop and change volume.

Files:

- `wrappers.dfy`: the `Option` type. `None` stands for JavaScript's `null`,
  and also for a NaN result.
- `js_object.dfy`: JavaScript plain objects as `Dict`. A `Dict` keeps its
  keys in insertion order, which is the order `Object.keys` and `for…in`
  visit them in, and maps each key to its value.
- `user_item_matrix.dfy`: the matrix. Its loops are methods, and the
  functions `TracksOf` and `RowAfter` specify them.
- `arithmetic.dfy`: facts of integer and real arithmetic that the bounds on
  the similarity rest on, among them the one-step form of the Cauchy–Schwarz
  inequality.
- `collaborative_filtering.dfy`: the similarity, the score accumulation and
  the ranking.
  - Similarity is a pure function, and its algebraic properties are lemmas.
  - The three loops of `getRecommendations` are methods, proved against the
    score function `Score`.
  - The final `sort`/`slice` is specified by a sorting function proved to
    yield a permutation in descending order.
- `music_player_context.dfy`: the player. It is a class whose methods update
  the three fields in place. The same transitions also exist as a pure `Step`
  function on `PlayerState` values, which the lemmas reason about.

Play counts are integers. Similarities and scores are reals. `Math.sqrt` is
a parameter; the lemmas that need it require it to be a non-negative square
root (`IsSqrt`). The two database reads are inputs:

- `users` is the result of `User.find()`;
- `records` is the UserTrack collection that `UserTrack.find({ userId })`
  filters.

## Model

| member | source | states |
|---|---|---|
| `UserItemMatrix.TracksOf` | backend/src/utils/userItemMatrix.js:9 | the selected records are exactly the stored records whose `userId` is the given user |
| `UserItemMatrix.RowAfter` | backend/src/utils/userItemMatrix.js:12-14 | the row the assignments leave behind, as a reference definition; its meaning is stated by `RowAfterKeys` and `RowAfterLastWins` |
| `UserItemMatrix.RowAfterKeys` | backend/src/utils/userItemMatrix.js:12-14 | after the assignments, the row has a key for a track if and only if some record of the user names that track |
| `UserItemMatrix.RowAfterLastWins` | backend/src/utils/userItemMatrix.js:12-14 | a track named by several records keeps the play count of the last of them |
| `UserItemMatrix.RowMeaning` | backend/src/utils/userItemMatrix.js:10-14 | a filled row holds exactly the user's tracks, each with its last play count, and is empty for a user without records |
| `UserItemMatrix.LastOfTracksOf` | backend/src/utils/userItemMatrix.js:9-14 | the last selected record of a user for a track is the last stored record, in store order, of that user for that track |
| `UserItemMatrix.SetPlayCount` | backend/src/utils/userItemMatrix.js:13 | the assignment sets the play count of one track in one user's row; the set of users and every other row are unchanged, and the matrix stays well formed |
| `UserItemMatrix.FillRow` | backend/src/utils/userItemMatrix.js:10-14 | resetting and filling one user's row adds only that user, leaves every other user's row unchanged and keeps every row a well-formed object |
| `UserItemMatrix.BuildUserItemMatrix` | backend/src/utils/userItemMatrix.js:3-17 | the matrix has a row for exactly the stored users; a row has a key for exactly the tracks that user has a record of, with the play count of the last such record in store order; a user without records gets an empty row |
| `CollaborativeFiltering.CommonItems` | backend/src/utils/collaborativeFiltering.js:5 | the common items are exactly the first user's keys that the second user also has, without repeats |
| `CollaborativeFiltering.CalculateSimilarity` | backend/src/utils/collaborativeFiltering.js:3-17 | users who share no track have similarity 0 |
| `CollaborativeFiltering.CalculateSimilarityAsWritten` | backend/src/utils/collaborativeFiltering.js:3-16 | whenever the unguarded division yields a number, it equals the guarded similarity |
| `CollaborativeFiltering.ZeroPlayCountMakesSimilarityNaN` | backend/src/utils/collaborativeFiltering.js:13-16 | two users who share one track, one of them with play count 0, make the unguarded division 0/0 |
| `CollaborativeFiltering.Dot` | backend/src/utils/collaborativeFiltering.js:12-14 | a row taken against itself gives a non-negative sum of squares |
| `CollaborativeFiltering.Cosine` | backend/src/utils/collaborativeFiltering.js:13-16 | when the sums satisfy the Cauchy–Schwarz inequality and `sqrt` is a square root, the quotient lies in [-1, 1] |
| `CollaborativeFiltering.DotCauchySchwarz` | backend/src/utils/collaborativeFiltering.js:12-14 | the square of the dot product is at most the product of the two sums of squares |
| `CollaborativeFiltering.SimilarityInRange` | backend/src/utils/collaborativeFiltering.js:3-17 | the similarity lies in [-1, 1]; with `SimilarityNonNegative`, in [0, 1] for non-negative play counts |
| `CollaborativeFiltering.DotSelf` | backend/src/utils/collaborativeFiltering.js:13-14 | a sum of squares is non-negative, and positive when some play count is non-zero |
| `CollaborativeFiltering.DotPermutation` | backend/src/utils/collaborativeFiltering.js:12 | the `reduce` sum of products depends only on which items are summed, not on their order |
| `CollaborativeFiltering.SimilaritySymmetric` | backend/src/utils/collaborativeFiltering.js:3-17 | the similarity of a and b equals the similarity of b and a |
| `CollaborativeFiltering.SelfSimilarity` | backend/src/utils/collaborativeFiltering.js:3-17 | a user with some non-zero play count has similarity 1 with themselves |
| `CollaborativeFiltering.SimilarityNonNegative` | backend/src/utils/collaborativeFiltering.js:12-16 | with non-negative play counts the similarity is non-negative |
| `CollaborativeFiltering.SimilarityIgnoresUnsharedItem` | backend/src/utils/collaborativeFiltering.js:5-14 | changing the first user's play count for a track the second user lacks does not change the similarity: only common items contribute |
| `CollaborativeFiltering.OtherUsers` | backend/src/utils/collaborativeFiltering.js:28-30 | the users compared are exactly the matrix users other than the target, without repeats |
| `CollaborativeFiltering.ScoreOverNoHolder` | backend/src/utils/collaborativeFiltering.js:41-46 | users none of whom has a track add nothing to its score |
| `CollaborativeFiltering.ComputeSimilarities` | backend/src/utils/collaborativeFiltering.js:27-34 | the similarity table has one entry per other user, in matrix order, holding that user's similarity with the target |
| `CollaborativeFiltering.AddToScore` | backend/src/utils/collaborativeFiltering.js:43-46 | the item's score grows by the amount (starting from 0 when absent); every other score is unchanged |
| `CollaborativeFiltering.AddContributions` | backend/src/utils/collaborativeFiltering.js:41-48 | exactly the other user's tracks that the target lacks gain similarity × play count; nothing else changes |
| `CollaborativeFiltering.AddedForOneMore` | backend/src/utils/collaborativeFiltering.js:41-47 | handling one more of the other user's tracks keeps the score table equal to the scores over the tracks handled so far |
| `CollaborativeFiltering.AccumulateScores` | backend/src/utils/collaborativeFiltering.js:36-49 | the score table has a key for exactly the tracks some compared user has and the target lacks, and each value is the sum over those users of similarity × play count |
| `CollaborativeFiltering.StepScores` | backend/src/utils/collaborativeFiltering.js:37-48 | handling one more user extends the score table from the users before it to the users up to it |
| `CollaborativeFiltering.StepScore` | backend/src/utils/collaborativeFiltering.js:46 | adding one user's weighted play count to a track's running sum gives the sum over one more user |
| `CollaborativeFiltering.CandidatesAreScored` | backend/src/utils/collaborativeFiltering.js:36-49 | the scored tracks are exactly those held by another user and not by the target |
| `CollaborativeFiltering.InsertByScore` | backend/src/utils/collaborativeFiltering.js:52 | inserting a track into a list in descending score order yields a list in descending order that holds one more occurrence of that track |
| `CollaborativeFiltering.SortByScore` | backend/src/utils/collaborativeFiltering.js:51-52 | the sorted keys are a permutation of the keys, in order of non-increasing score |
| `CollaborativeFiltering.TopPrefix` | backend/src/utils/collaborativeFiltering.js:53 | every key cut off by the slice scores no higher than every key kept |
| `CollaborativeFiltering.TopRecommendations` | backend/src/utils/collaborativeFiltering.js:51-53 | at most ten keys (all of them when fewer), no repeats, all scored, in descending order, and no key left out scores higher than a kept one |
| `CollaborativeFiltering.RankedByScore` | backend/src/utils/collaborativeFiltering.js:51-53 | the ordering of the score table is the ordering by `Score` |
| `CollaborativeFiltering.GetRecommendations` | backend/src/utils/collaborativeFiltering.js:23-55 | an unknown user gets []; otherwise up to ten distinct tracks that the target lacks and some other user has (all candidates when fewer than ten), ranked by non-increasing score, none of the others scoring higher |
| `CollaborativeFiltering.GetRecommendationsFromStore` | backend/src/utils/collaborativeFiltering.js:19-56 | from the stored users and records: a user not stored gets []; every result is a distinct track that another stored user has a record of and the target has none of; there are at most ten |
| `MusicPlayerContext.Initial` | frontend/src/context/MusicPlayerContext.js:8-10 | the initial state is not playing, no current track, volume 1 |
| `MusicPlayerContext.Step` | frontend/src/context/MusicPlayerContext.js:12-28 | play sets the track and starts playing; pause stops playing and keeps the track; stop clears both; only change-volume moves the volume, which it takes as given; playing always implies a current track |
| `MusicPlayerContext.PauseIdempotent` | frontend/src/context/MusicPlayerContext.js:17-19 | pausing twice equals pausing once |
| `MusicPlayerContext.StopIdempotent` | frontend/src/context/MusicPlayerContext.js:21-24 | stopping twice equals stopping once |
| `MusicPlayerContext.RunConsistent` | frontend/src/context/MusicPlayerContext.js:12-24 | in every state reachable by transitions from a consistent one, a playing player has a current track |
| `MusicPlayerContext.RunKeepsVolume` | frontend/src/context/MusicPlayerContext.js:12-24 | a run of play, pause and stop never changes the volume |
| `MusicPlayerContext.RunLastVolume` | frontend/src/context/MusicPlayerContext.js:26-28 | after any run, the volume is the one given by the last volume change |
| `MusicPlayerContext.MusicPlayer.constructor` | frontend/src/context/MusicPlayerContext.js:8-10 | a new player is not playing, has no track and has volume 1 |
| `MusicPlayerContext.MusicPlayer.PlayTrack` | frontend/src/context/MusicPlayerContext.js:12-15 | the track becomes current and the player plays; the volume is unchanged |
| `MusicPlayerContext.MusicPlayer.PauseTrack` | frontend/src/context/MusicPlayerContext.js:17-19 | the player stops playing; track and volume are unchanged |
| `MusicPlayerContext.MusicPlayer.StopTrack` | frontend/src/context/MusicPlayerContext.js:21-24 | the player stops playing and has no track; the volume is unchanged |
| `MusicPlayerContext.MusicPlayer.ChangeVolume` | frontend/src/context/MusicPlayerContext.js:26-28 | the volume becomes the given value, unclamped; nothing else changes |

## Left out

- Database access (`User.find`, `UserTrack.find`) and `await` are not modelled. The stored users and records are inputs, and `UserTrack.find({ userId })` is the filter `TracksOf` over the records in store order.
- `console.log` calls are left out: they have no effect on the results.
- Numbers are not IEEE doubles. Play counts are mathematical integers, and similarities and scores are exact reals. Rounding, overflow and the order in which floating-point sums are rounded are not modelled.
- `CollaborativeFiltering.AccumulateScores`, `CollaborativeFiltering.ComputeSimilarities` and `CollaborativeFiltering.GetRecommendations` use the guarded similarity, so NaN scores are not modelled. In the source, a NaN score is reset to 0 when a later user also holds the track, because `!recommendations[item]` is true for NaN (collaborativeFiltering.js:43-44). A NaN in the comparator of line 52 leaves the sort order undefined.
- `Math.sqrt` is a parameter that the lemmas assume to be an exact non-negative square root.
- JavaScript lists integer-like object keys (such as `"42"`) before other keys, whatever the insertion order. `Dict` keeps plain insertion order, which matches for user ids (database ids) but not for purely numeric track ids.
- `CollaborativeFiltering.SortByScore`: the order of tracks with equal scores is left to the library's `sort` and is not modelled. Only a permutation in descending score order is stated.
- `CollaborativeFiltering.GetRecommendationsFromStore`: does not restate the ranking. `GetRecommendations`, which it calls, states it over the built matrix.
- Play counts that are not numbers, negative or missing are not modelled; a record carries an integer play count. `SimilarityNonNegative` requires non-negative counts.
- `MusicPlayerContext.MusicPlayer.PlayTrack`: calling `playTrack(null)` is not modelled, because a track is always a value. This is why a playing player always has a current track.
- React's rendering, the context object, `useMusicPlayer`, and the asynchronous batching of `useState` updates are left out. Each transition is applied at once and in order.
- The HTTP routes, authentication, the audio element and every other part of the application are not part of this model.

## Findings

| source | as written | input that shows it | evidently intended | confidence | as-written member | corrected member |
|---|---|---|---|---|---|---|
| backend/src/utils/collaborativeFiltering.js:13-16 | `dotProduct / (user1Magnitude * user2Magnitude)` with no guard; when every shared play count of one user is 0, the magnitude is 0 and the result is 0/0 = NaN; it survives in a track's score only when that user is the last one to contribute to the track, since a later contributor finds `!recommendations[item]` true and restarts the sum at 0 | user a = `{t: 0}`, user b = `{t: 5}` | a zero magnitude gives similarity 0, the same value the function returns when nothing is shared | not executed | `CollaborativeFiltering.CalculateSimilarityAsWritten`, `CollaborativeFiltering.ZeroPlayCountMakesSimilarityNaN` | `CollaborativeFiltering.CalculateSimilarity` |
