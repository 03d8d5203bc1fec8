# Verified model of the symbol renaming, the header merge and the token layer

This project models three parts of the LiveKit Rust SDK in Dafny and proves properties of the models.

**The libyuv symbol renaming** (`yuv-sys/build.rs`). The build script copies the vendored libyuv sources
into the output directory once, and renames every listed symbol in every header and source by a
whole-word replacement per line of `yuv_functions.txt`.

- `WordRuns`, `WholeWord`: texts as alternating runs of word and non-word characters, and the scan of
  `\b…\b`. The class of word characters is a parameter, because the engine's `\b` is Unicode-aware; white
  space is the Unicode White_Space property.
- `RenameList`, `Renaming`: parsing the list, applying it to one text, and, for lists of words, when the
  sequential loop is one simultaneous substitution or can be repeated.
- `AlphaRenaming`, `PrefixUndo`: the pass over all files as a consistent renaming, and its inverse for the
  list as shipped.
- `RepeatPass`, `RunSubstitution`, `ConsistentRenaming`: names of any number of words, hence the list as
  shipped: when a second pass changes something, which runs the pass changes and how, and when what it makes
  of the words in all files is a consistent renaming.
- `ParallelRename`, `DiskPass`: the concurrent tasks under every interleaving, with files that cannot be
  read, opened or completely written, and what that means for the disk.
- `CopyTree`, `BuildRun`, `BuildHistory`: the recursive copy with failures, one run of the script, and any
  number of runs. `FinishedTree` says the result file by file. `Paths` and `Wrappers` hold the types they share.

**The header merge** (`livekit-api/src/http_client.rs`): `HeaderMerge`.

**Access tokens and webhooks** (`livekit-api/src/access_token.rs`, `livekit-api/src/webhooks.rs`): `Base64`,
`Json` (the derived struct codec as a table), `Claims`, `ClaimKeys` (what decoding reads under each name),
`CompactToken`, `TokenBuilder`, `TokenRules` (when tokens are issued and accepted), `Webhook`.

Code that changes things in place is modelled by methods and classes (`WholeWord.ReplaceAll`,
`Renaming.RenameContent`, `CopyTree.FileSystem`, `BuildRun.Build`, `HeaderMerge.RequestBuilder`,
`TokenBuilder.AccessToken`), each tied by its contract to a function that the lemmas are about.

## Findings

- The shipped list is not made of words only: lines 1 to 6 of `yuv_functions.txt` are macro pastes such as
  `NAME##ToYRow_C`. The run-level theorems and the round trip therefore cover every name that starts and ends
  with a word character.
- A second pass is not harmless. For every list of the shipped form whose sources keep apart, it changes
  nothing exactly when every line glues the prefix to its name (`RepeatPass.PrefixListRepeatIff`); the four
  lines whose target is `rs_##…` do not, so the pass is safe only because it runs once per clone. That no
  target is a listed source is the right condition for lists of words only (`Renaming.UnchainedListRepeats`).
  Keeping apart cannot be dropped either: a glued `x##x` takes two passes where it overlaps itself, and then
  settles (`RepeatPass.OverlapRenamesAgain`), whereas a pasted name grows with every pass
  (`RepeatPass.PasteInListRenamesAgain`).
- The shipped list changes a word exactly where a listed name begins at it (`RunSubstitution.ShippedPassMarks`),
  and different words never become the same (`ConsistentRenaming.SameWordAfterIff`). It does split words up:
  after `kYuv##name##Constants` the bare `kYuv` keeps its old spelling
  (`ConsistentRenaming.SeveralWordsSplitUp`). Lines 5 and 6 are the only reason: a list of the shipped form
  renames all unprefixed files consistently exactly when it glues prefixes to single words only
  (`ConsistentRenaming.AlwaysConsistentIff`). The pasted prefixes of lines 1 to 4 do no harm here, because
  `rs_` and `##` are put in front of a word that itself stays as it was.
- Writing a file back first empties it, so it is torn while its task writes, and stays torn if that task
  fails (`ParallelRename.EveryMoment`). The clone guard never repairs such a tree.
- The clone guard does not protect a run that stops between the copy (line 137) and the end of the rename
  (line 155), for instance because the list cannot be read or a listed file has no extension: the tree then
  stays unrenamed in every later run (`BuildHistory.StopAfterCloneStaysUnrenamed`).
  `BuildHistory.FinishedIff` says which inputs of the creating run guarantee that the tree ends finished. A
  list that changes later is likewise never applied to a tree that exists (`BuildHistory.LatestListIff`),
  although line 250 reruns the script for it.
- The bindings are requested for the raw lines, the renaming uses the parsed ones; they agree exactly on
  one-column lines without surrounding white space (`RenameList.AllowlistAgrees`).
- An empty `video` claim means the default grants, an empty `sip` claim is rejected, since the fields of
  `SIPGrants` have no serde default (`Claims.EmptySipIsRejected`).

## Assumptions

- Listed names contain no regular-expression operator and targets no `$`, so each pattern is literal and no
  replacement is expanded (`Renaming.PlainList`). Every line of `yuv_functions.txt` is of this kind, and is a
  `PrefixUndo.PrefixLine` for any word class with `r`, `s`, `_` in it and `#` outside. Its sources keep apart
  (`RepeatPass.SourcesApart`): a name listed twice has one target, no name overlaps or occurs in another, and
  no prefixed first word is listed. No line with a pasted prefix is repeated (`RunSubstitution.PastedOnce`).
- Writing or copying a file empties it and then appends its characters in order; reading a file is one step.
- The source tree is finite and does not change during a run. Each operation on a path may fail; which ones
  do is a parameter of every method.
- HS256 and SHA-256 are arbitrary functions. The JSON printer and parser, and the codec of
  `RoomConfiguration`, are arbitrary functions that round-trip on the header, on claims and on
  configurations (`CompactToken.Lawful`).
- The token library follows RFC 7515 and RFC 7519: strict base64url parts, `exp` required, `exp` and `nbf`
  compared with a leeway, `iss` compared with the configured issuer, a token that names an audience rejected.
  The leeway, and whether a token may lack `iss`, are parameters; every theorem holds for all their values.

## Model

| member | source | states |
|---|---|---|
| `WordRuns.SplitSound` | yuv-sys/build.rs:60 | cutting a text at every change between word and non-word characters loses nothing and yields alternating nonempty runs |
| `WordRuns.SplitUnique` | yuv-sys/build.rs:60 | those runs are the only alternating runs with that text |
| `WholeWord.ReplaceAll` | yuv-sys/build.rs:60-63 | the scan computes the leftmost non-overlapping replacement; the owned case occurs iff some position matches, the borrowed case is the identity |
| `WholeWord.MatchAtMeans` | yuv-sys/build.rs:60 | a match is the name with no word character next to an end that is one, and a word character next to an end that is not |
| `WholeWord.ReplaceIsRunReplacement` | yuv-sys/build.rs:60-63 | for names bounded by word characters, splitting the output gives exactly the input's runs with each leftmost occurrence of the name's runs replaced by the target's runs |
| `WholeWord.ReplaceWordIsMap` | yuv-sys/build.rs:60-63 | for a single word that is a map over the runs, in place: equal runs become the target, all others stay |
| `RenameList.SpacesAre` | yuv-sys/build.rs:46-51 | white space are the 25 code points of the Unicode property |
| `RenameList.ParsedColumns` | yuv-sys/build.rs:46-58 | exactly the lines with a visible character parse, and then neither column is empty or contains white space, so `split[0]` exists |
| `RenameList.ParsePrinted` | yuv-sys/build.rs:46-58 | with any padding, a one-column line asks for the `rs_` prefix and a longer line for its second column, whatever follows it |
| `RenameList.LineContributes` | yuv-sys/build.rs:45-58 | at any position a line contributes exactly its own columns, and the lines before and after it parse on their own |
| `RenameList.BlankContributes` | yuv-sys/build.rs:46-49 | and a blank line contributes nothing |
| `RenameList.ListRoundTrip` | yuv-sys/build.rs:45-58 | any entries, printed one to a line in any style, with any blank lines before, between and after them, are what the list parses to, in order |
| `RenameList.AllowlistAgrees` | yuv-sys/build.rs:241-244 | the name given to bindgen is the rename target iff the line is one column without surrounding white space |
| `Renaming.RenameContent` | yuv-sys/build.rs:44-64 | the loop over the list computes the entry-by-entry renaming of the text |
| `Renaming.RenameIsRunRenaming` | yuv-sys/build.rs:44-64 | the whole pass over a text is the list applied to its runs, for all word-bounded names |
| `Renaming.RenameIsWordMap` | yuv-sys/build.rs:44-64 | for lists of words every run is mapped in place by the left fold of the entries, chains included |
| `Renaming.SequentialIsSimultaneous` | yuv-sys/build.rs:45-64 | the sequential loop equals the simultaneous, first-line-wins substitution iff later lines leave every effective target alone |
| `Renaming.UnchainedListSettles` | yuv-sys/build.rs:45-64 | which holds whenever no target is a listed source |
| `Renaming.RepeatHarmlessIff` | yuv-sys/build.rs:43-67 | for lists of words, chained or not, a second pass changes no text iff the list is settled on its own sources after one application |
| `Renaming.UnchainedListRepeats` | yuv-sys/build.rs:54-63 | so lists of words whose targets are not listed can be applied any number of times |
| `AlphaRenaming.InjectiveIffCollisionFree` | yuv-sys/build.rs:45-64 | for every list, chained or not, distinct names stay distinct iff no entry, at its turn, renames a name in use to another name in use |
| `AlphaRenaming.PassIsAlphaRenaming` | yuv-sys/build.rs:43-67 | for lists of words, over all files the text between words is unchanged, and word occurrences anywhere are equal afterwards iff they were before, exactly when the list is collision-free on the words used |
| `AlphaRenaming.FreshTargetsKeepApart` | yuv-sys/build.rs:43-67 | distinct, fresh, unlisted targets are collision-free |
| `PrefixUndo.ShippedLinesQualify` | yuv-sys/yuv_functions.txt:1-7 | single names and pastes of two or three words, prefixed as the list prefixes them, are lines of the form below |
| `PrefixUndo.UndoRecoversText` | yuv-sys/build.rs:22-68 | for lists of the shipped form, in any order and with repeats, removing prefixes from the renamed text gives back every text that used none |
| `PrefixUndo.DistinctTextsStayDistinct` | yuv-sys/build.rs:22-68 | so two such texts are equal after the pass iff they were before |
| `PrefixUndo.OneColumnKeepsNamesApart` | yuv-sys/build.rs:54-63 | one-column lists never merge two unprefixed names, even when they repeat or chain lines |
| `PrefixUndo.PasteLineRenamesAgain` | yuv-sys/yuv_functions.txt:1-4 | a line whose target is `rs_##` and the name, on its own, prefixes its own output once more |
| `RepeatPass.RepeatIff` | yuv-sys/build.rs:43-67 | for every list of word-bounded names that keep apart, a second pass changes no text iff no changing line's target contains its own source as whole words |
| `RepeatPass.UnchainedNamesRepeat` | yuv-sys/build.rs:43-67 | lists of word-bounded names in which no target can contain a source, or complete one, can be applied any number of times |
| `RepeatPass.PrefixListRepeatIff` | yuv-sys/yuv_functions.txt:1-2337 | for lists of the shipped form whose sources keep apart, that is iff every line glues the prefix to its name |
| `RepeatPass.PasteInListRenamesAgain` | yuv-sys/yuv_functions.txt:1-4 | in such a list, a text that is the source of a line with a pasted prefix gets longer with every pass, whatever the other lines |
| `RepeatPass.OverlapRenamesAgain` | yuv-sys/build.rs:60-63 | without keeping apart a glued line is not repeatable either: two overlapping occurrences take exactly two passes, since matches do not overlap |
| `RunSubstitution.InTurnIsAtOnce` | yuv-sys/build.rs:45-64 | applying the lines in turn is one scan in which the first line that begins at a position wins, for names of any number of words without chains |
| `RunSubstitution.InTurnIsAtOnceIff` | yuv-sys/yuv_functions.txt:1-2337 | for lists of the shipped form whose sources keep apart, loop and scan agree on every text iff no line with a pasted prefix is repeated |
| `RunSubstitution.ShippedPassMarks` | yuv-sys/yuv_functions.txt:1-2337 | the pass of a list of the shipped form keeps every run in its place and prefixes exactly those at which a listed name begins |
| `RunSubstitution.MarkIff` | yuv-sys/yuv_functions.txt:1-6 | a run is kept iff no listed name begins at it, and otherwise glued or pasted a prefix as the line of the name that begins there says |
| `ConsistentRenaming.PlaceHolds` | yuv-sys/build.rs:43-67 | each run of a text has its place in the marked runs that the pass yields, and there stands the run itself, with the prefix if a glued name begins at it |
| `ConsistentRenaming.EveryPlace` | yuv-sys/build.rs:43-67 | besides the runs in their places the marked runs hold only the `rs_` and `##` pasted in front of a name |
| `ConsistentRenaming.BetweenWordsUnchanged` | yuv-sys/build.rs:60-63 | in the renamed files, the text between words stands unchanged in its place |
| `ConsistentRenaming.SameWordAfterIff` | yuv-sys/build.rs:43-67 | two word occurrences of unprefixed files are the same word in the renamed files iff they were the same and a glued name begins at both or at neither |
| `ConsistentRenaming.ConsistentIffUsedAlike` | yuv-sys/build.rs:43-67 | so the pass over all files keeps all equalities and differences of words iff a glued name begins wherever a word stands or nowhere |
| `ConsistentRenaming.SeveralWordsSplitUp` | yuv-sys/yuv_functions.txt:5-6 | a glued name of several words, followed by its own first word, is renamed inconsistently |
| `ConsistentRenaming.AlwaysConsistentIff` | yuv-sys/yuv_functions.txt:1-2337 | a list of the shipped form renames all unprefixed files consistently iff its glued names that can occur in them are single words |
| `ParallelRename.EveryMoment` | yuv-sys/build.rs:43-67 | under every interleaving and every fault a file holds its old text, its renamed text, or a proper prefix of it, the last only while its own task writes or after it failed to write |
| `ParallelRename.InterleavingsAgree` | yuv-sys/build.rs:43-67 | all interleavings in which the tasks end leave the same files; all tasks succeed iff no file is bound to fail |
| `ParallelRename.EndsIff` | yuv-sys/build.rs:43-67 | a task ends iff its file has had its turns, independently of failures of other files |
| `ParallelRename.FinishesIff` | yuv-sys/build.rs:43-67 | the loop succeeds iff no file is bound to fail and each had one turn to read, one per entry, one to open, one per character and one to return |
| `DiskPass.EveryEndFits` | yuv-sys/build.rs:43-67 | on the disk, any interleaving that ends leaves what the sequential model allows, and succeeds iff every selected path can be edited |
| `DiskPass.AnyInterleavingFinishes` | yuv-sys/build.rs:154-156 | on the tree just copied, any interleaving that succeeds leaves the finished tree |
| `DiskPass.KilledInRename` | yuv-sys/build.rs:154-156 | a run killed at any moment of any interleaving leaves every header and source old or as a front part of its renamed text, as the history's killed step says |
| `CopyTree.GraftLookup` | yuv-sys/build.rs:70-81 | the disk content of a copied tree is the tree, path by path, and nothing else |
| `CopyTree.LookupMeans` | yuv-sys/build.rs:70-81 | a file holds its content and nothing below, a directory holds what its entries hold below their names |
| `CopyTree.FileSystem.CopyDir` | yuv-sys/build.rs:70-81 | succeeds iff every path can be placed; then the disk is the old one overlaid by the source, source winning; in any case nothing outside the destination changes and nothing new is below it but directories and front parts of files of the source |
| `CopyTree.CopyIntoEmpty` | yuv-sys/build.rs:70-81 | copied to an empty place, the result is exactly the source tree |
| `BuildRun.CloneIfNeeded` | yuv-sys/build.rs:83-94 | nothing happens if the tree exists; a failed copy whose removal succeeds leaves the disk as it was |
| `BuildRun.ExtensionIsSuffix` | yuv-sys/build.rs:142-148 | the extension is the dot-free part after a dot that is not the first character |
| `BuildRun.ExtensionStem` | yuv-sys/build.rs:142-148 | conversely a name with an extension is a nonempty stem, a dot and the extension |
| `BuildRun.ListableIff` | yuv-sys/build.rs:139-149 | listing panics unless the directory exists and every entry has a dot behind its first character |
| `BuildRun.ListFiles` | yuv-sys/build.rs:139-149 | lists each path with the extension once, and panics iff the directory is missing or a name has no extension |
| `FinishedTree.SelectedIff` | yuv-sys/build.rs:139-149 | the pass is given a path iff it is on the disk as `include/libyuv/STEM.h` or `source/STEM.cc` with a nonempty stem |
| `FinishedTree.FinishedFile` | yuv-sys/build.rs:137-156 | in a finished tree exactly these files hold their renamed vendored text, every other path what the vendored tree holds, and nothing else is there |
| `FinishedTree.FinishedOutside` | yuv-sys/build.rs:137-156 | and outside the tree nothing has changed |
| `BuildRun.RenameSymbols` | yuv-sys/build.rs:38-68 | succeeds iff every file can be read and written, and then renames exactly these; otherwise each file is old, renamed, or, if it is one that fails, a proper prefix of its renamed text |
| `BuildRun.Build` | yuv-sys/build.rs:126-156 | the inputs decide the outcome: renamed iff the tree was absent, could be placed, listed and edited and the list was readable; each way of stopping has its own condition, and the disk is as the history's step says |
| `BuildHistory.TreeNeverTouchedAgain` | yuv-sys/build.rs:84-86 | a tree that exists is never written again by any later run, killed or not |
| `BuildHistory.CreatingRunDecides` | yuv-sys/build.rs:83-94 | after any number of runs the disk is what the first run able to place the tree would have left on its own |
| `BuildHistory.UninterruptedRunsFinish` | yuv-sys/build.rs:137-156 | if the first run that can place the tree can also list and edit it, the tree is at all times absent, or copied and renamed once with that run's list |
| `BuildHistory.FinishedIff` | yuv-sys/build.rs:137-156 | if up to the first run able to place the tree none is killed and failed copies are removed: every history of the given inputs ends with the tree absent or finished iff that run gets to its end, or its list changes nothing and no failing write can tear a file |
| `BuildHistory.OneHistoryFinishedIff` | yuv-sys/build.rs:137-156 | a single history ends absent or finished iff that run has a readable list, listable directories and editable files, up to failures on files the list does not change |
| `BuildHistory.FinishedNeedsEdits` | yuv-sys/build.rs:139-156 | without that proviso: a finished tree means that the creating run could list and edit every file the list changes |
| `BuildHistory.LatestListIff` | yuv-sys/build.rs:154-156 | the tree is finished for a later list iff that list renames every header and source as the creating run's list does |
| `BuildHistory.StopAfterCloneStaysUnrenamed` | yuv-sys/build.rs:137-156 | after a stop between copy and rename the tree stays the plain copy for good, which is finished for a list iff it changes no header or source |
| `HeaderMerge.RequestBuilder.Headers` | livekit-api/src/http_client.rs:134-159 | panics iff the stream starts with a bare value; otherwise each named key ends with its last group's values and all others keep theirs |
| `HeaderMerge.StreamOfGroups` | livekit-api/src/http_client.rs:138-157 | every stream that starts with a name is a stream of groups |
| `HeaderMerge.EveryStreamOverrides` | livekit-api/src/http_client.rs:134-159 | the remembered-entry loop equals overriding one multimap by the groups of the stream |
| `HeaderMerge.MergedValues` | livekit-api/src/http_client.rs:138-157 | after the loop a name has exactly the values of its last group in the stream, in order |
| `HeaderMerge.MergeUnnamed` | livekit-api/src/http_client.rs:138-157 | a name that the stream does not hold keeps what it had |
| `HeaderMerge.MergeRefinesOverride` | livekit-api/src/http_client.rs:134-159 | for a header map listed in any order, `unreachable!` is not reached and the result is the map override |
| `HeaderMerge.MergesCompose` | livekit-api/src/http_client.rs:134-159 | merging two maps in turn is merging the first overridden by the second |
| `HeaderMerge.MergeRepeated` | livekit-api/src/http_client.rs:134-159 | merging the same map again changes nothing |
| `HeaderMerge.MergeIntoEmpty` | livekit-api/src/http_client.rs:134-159 | merging into an empty builder reproduces the map |
| `Base64.RawExact` | livekit-api/src/access_token.rs:276-280 | unpadded decoding accepts exactly the encodings, each to its bytes |
| `Base64.PaddedExact` | livekit-api/src/webhooks.rs:55 | padded decoding accepts exactly the canonical encodings, each to its bytes |
| `Base64.CharIsTabled` | livekit-api/src/webhooks.rs:55 | the alphabets are those of tables 1 and 2 of RFC 4648 |
| `Base64.GroupIsNumber` | livekit-api/src/webhooks.rs:55 | a group of bytes and its characters are the same number, most significant part first |
| `Base64.PaddedShape` | livekit-api/src/webhooks.rs:55 | padded text fills groups of four and ends in one `=` for each missing byte |
| `Json.FieldsRoundTrip` | livekit-api/src/access_token.rs:43-44 | decoding what the derived encoder wrote is the identity for every struct with distinct keys |
| `Json.GetMeaning` | livekit-api/src/access_token.rs:43-44 | a key is found iff exactly one field has it, and missing iff none has |
| `Json.StringMapMeaning` | livekit-api/src/access_token.rs:150 | a map holds for each key the value of its last field |
| `Claims.UnknownClaimIgnored` | livekit-api/src/access_token.rs:136-139 | a field under an unknown key, whatever it holds and wherever it stands, never matters |
| `Claims.VideoOverridesDefault` | livekit-api/src/access_token.rs:43-119 | for every subset of present keys, in any order, decoding is the default overridden by them |
| `Claims.SipNeedsBothKeys` | livekit-api/src/access_token.rs:121-134 | SIP grants decode iff both keys are present, once, as booleans |
| `Claims.ClaimsRoundTrip` | livekit-api/src/access_token.rs:136-152 | encoding any claims, attributes in any order, and decoding is the identity |
| `ClaimKeys.ClaimsByKey` | livekit-api/src/access_token.rs:136-152 | an object decodes to claims iff each of the eleven camelCase keys holds the claim, or is missing where the claim is the default |
| `ClaimKeys.VideoByKey` | livekit-api/src/access_token.rs:43-119 | the same for the fifteen keys of the video grants, with `true` as default of the three publish and subscribe rights |
| `ClaimKeys.SipByKey` | livekit-api/src/access_token.rs:121-134 | `admin` and `call` each set their own grant and both must be there |
| `ClaimKeys.EncodedByKey` | livekit-api/src/access_token.rs:136-152 | encoding writes the claims under these keys, defaults included |
| `Claims.AbsentVideoIsEmptyVideo` | livekit-api/src/access_token.rs:136-146 | a missing `video` and an empty one at any position decode alike |
| `Claims.EmptySipIsRejected` | livekit-api/src/access_token.rs:121-147 | an empty `sip` at any position is rejected, a missing one gives the default |
| `CompactToken.SplitCompactExact` | livekit-api/src/access_token.rs:306-316 | splitting at the last two dots inverts joining three parts |
| `CompactToken.IssuedTokenVerifies` | livekit-api/src/access_token.rs:263-319 | an issued token is accepted iff the MACs agree, the verifier's key is the issuer and the time is within the leeway of [nbf, exp]; it yields exactly the issued claims |
| `CompactToken.AcceptedIsSigned` | livekit-api/src/access_token.rs:154-158 | an accepted token carries the one signature text of its message, and reading it unverified gives the same claims |
| `CompactToken.AcceptedTextUnique` | livekit-api/src/access_token.rs:306-319 | of all tokens with the same first two parts at most one text is accepted |
| `CompactToken.UnverifiedIgnoresSignature` | livekit-api/src/access_token.rs:429-435 | reading unverified gives the same result whatever the third part |
| `TokenRules.VerifiedIff` | livekit-api/src/access_token.rs:306-319 | a token of any origin is accepted iff it has three parts, an HS256 header, the MAC of the first two as its signature, and a payload with the claims, one `exp` not past, no `nbf` ahead, the key as `iss` and no `aud` |
| `TokenRules.ReadIff` | livekit-api/src/access_token.rs:154-158 | it is read unverified iff it has three parts, a header with a known algorithm and a payload with the claims |
| `TokenBuilder.AccessToken.WithApiKey` | livekit-api/src/access_token.rs:179-198 | the key is the issuer, validity starts at the current second and lasts six hours, and nothing is granted beyond the default |
| `TokenBuilder.AccessToken.WithAttributes` | livekit-api/src/access_token.rs:242-251 | collects the pairs one by one into the attribute map and leaves every other claim |
| `TokenBuilder.CollectKeepsLast` | livekit-api/src/access_token.rs:242-251 | a repeated attribute key keeps its last value |
| `TokenBuilder.LastCallWins` | livekit-api/src/access_token.rs:211-261 | every field ends as the last call of its kind left it; issuer and start of validity never change |
| `TokenBuilder.ChainsAgree` | livekit-api/src/access_token.rs:211-261 | chains with the same last call of each kind build the same claims, so calls of different kinds commute |
| `TokenBuilder.ValidityIsAnInterval` | livekit-api/src/access_token.rs:179-215 | with a clock that never runs backwards, nbf is at most exp |
| `TokenRules.IssuableIff` | livekit-api/src/access_token.rs:263-281 | over every chain of calls: invalid keys iff key or secret is empty; otherwise invalid claims iff the last grants ask to join without a room or the last identity is missing or empty; otherwise a token |
| `TokenRules.IssuedToken` | livekit-api/src/access_token.rs:276-280 | the token is a `JWT` header for `HS256`, the claims, and the MAC of both |
| `TokenRules.JoinIsNamed` | livekit-api/src/access_token.rs:268-274 | an issued and accepted token that grants a join names an identity and a room |
| `TokenBuilder.IssueThenVerify` | livekit-api/src/access_token.rs:178-319 | for every chain whose token is issued, the same key and secret accept it throughout [nbf, exp] with exactly the built claims, and another key never does |
| `Webhook.CheckedInOrder` | livekit-api/src/webhooks.rs:51-60 | after authorization, base64, digest and data errors are reported in that order |
| `Webhook.ReceivedInOrder` | livekit-api/src/webhooks.rs:44-61 | a failed authorization is reported as such with its cause, before anything else is checked |
| `Webhook.DeliveredIff` | livekit-api/src/webhooks.rs:44-61 | an event is delivered iff the token verifies, its digest claim is the canonical base64 of the body's digest, and the body parses to it |
| `Webhook.WebhookRoundTrip` | livekit-api/src/webhooks.rs:44-61 | a token built for a body delivers its parse while valid, and any body with another digest is an invalid signature |

## Left out

- `AlphaRenaming.PassIsAlphaRenaming`: speaks of lists of words; lists with paste lines are the subject of `ConsistentRenaming`.
- `Renaming.RepeatHarmlessIff`: speaks of lists of words, with any chains; for names of several words `RepeatPass.RepeatIff` gives the condition when the names keep apart, and `RepeatPass.UnchainedNamesRepeat` a sufficient one without that.
- `RunSubstitution.InTurnIsAtOnce`: one direction, for any names; `RunSubstitution.InTurnIsAtOnceIff` has both for the shipped form, `Renaming.SequentialIsSimultaneous` for lists of words.
- `BuildRun.RenameSymbols`: takes the files in turn; `DiskPass.EveryEndFits` shows that every interleaving ends in a state it allows.
- `BuildHistory.OneHistoryFinishedIff`: which of the other tasks still run after one has failed is not determined by the inputs; `BuildHistory.FinishedIff` speaks of all outcomes instead.
- `ParallelRename.EveryMoment`: a file is torn between characters, while the program writes bytes, so a real tear can also end inside a character.
- `ParallelRename.FinishesIff`: counts one turn per character; how many characters one write takes is not modelled.
- `BuildRun.CloneIfNeeded`: requires that the output directory itself exists, which the build tool guarantees, so `create_dir_all` has at most one directory to create.
- `BuildRun.Build`: a killed process is a step of `BuildHistory` (`KilledStep`), not an execution of the method.
- `CompactToken.IssuedTokenVerifies`: reads only `alg` of the token header, and times as exact integers; the other optional header fields are not modelled.
- `Claims.ClaimsRoundTrip`: objects only; the array form in which serde also accepts a struct, floating-point numbers and 32-bit `usize` are not modelled.
- `HeaderMerge.RequestBuilder.Headers`: takes names in canonical case and a builder without error; the capacity limit of a header map is not modelled.
- Cutting the list file into lines: the model starts from the lines.
- Permissions, symbolic links and metadata in the tree copy.
- The partition of the sources into compilation units, compiler probes, bindgen and all link flags: fixed lists and foreign calls.
- Reading keys from the environment, HTTP sending, and the internals of `RoomConfiguration`, HS256, SHA-256 and the JSON text format.
- The rest of the SDK (media, signalling, data tracks, FFI).
