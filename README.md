# com.zacwolf.commons.email, modelled in Dafny

This project models the core of a small Java library that builds HTML emails and sends them.
It proves properties of that model.

- A message (`Email`) has a reference id, a subject, an HTML body, an optional plain-text body, attachments keyed by content-id, a distribution and a send ledger.
- A distribution (`EmailDistribution`) holds a sender and three roles: TO, CC and BCC. Each role maps a group name to a set of addresses.
- A message built from a template (`EmailFromTemplate`) falls back to the template's subject, plain text and attachments.
- The dispatcher (`_EMAILfactory`) cuts large distributions into batches of at most 200 addresses per role. For each batch it removes CC/BCC addresses the ledger already holds, sends once, retries once after a partial refusal, and records the result in the ledger.

Modules, one per Java file plus shared helpers:

| file | module | models | form |
|---|---|---|---|
| common.dfy | `Common` | Option, Result, Java exception text, `int` wrap-around, `String.hashCode`, string predicates | functions, lemmas |
| sums.dfy | `Sums` | order-free sums over a set (for hash sums over a `HashSet`) | functions, lemmas |
| send_log.dfy | `SendLedger` | `EmailSendLog` | class |
| attachment.dfy | `Attachments` | `EmailAttachment` | datatype, functions |
| distribution.dfy | `Distributions` | `EmailDistribution` | class over a `Dist` value, loop methods, JSON as a map value |
| style.dfy | `Styles` | the two inline-style rules of `Email` | functions, lemmas |
| mime.dfy | `Mime` | `getAsMultipart`, `prepareImgs`, the title and table rules of `prepare` | datatypes, loop methods |
| email.dfy | `Messages` | `Email`: setters, identity, `createClip`, `color2hex` | class, functions |
| from_template.dfy | `Templates` | `EmailFromTemplate` | class with read-only functions |
| factory.dfy | `Dispatch` | `_EMAILfactory`: batching, the per-batch task, `send` | recursive methods with loops, specified by functions |

How the outside world is represented:

- Address parsing (`InternetAddress.parseHeader`) is a parameter `parse`, from text to already-parsed address trees.
- jsoup appears as parameters:
  - a function from body text to the document's images and tables;
  - the `#content` extraction;
  - the template merge.
- The mail transport is a function from a message's recipients to an outcome datatype.
- Clock values are a version counter (`last_changed`) and an opaque timestamp string.

## Model

Source paths are under `src/main/java/com/zacwolf/commons/email/`.

| member | source | states |
|---|---|---|
| SendLedger.EmailSendLog.constructor | src/main/java/com/zacwolf/commons/email/EmailSendLog.java:33-34 | a new ledger holds no address and no error text |
| SendLedger.EmailSendLog.LogSentTo | src/main/java/com/zacwolf/commons/email/EmailSendLog.java:36-38 | the address is added; every other address keeps its membership; errors unchanged |
| SendLedger.EmailSendLog.AlreadySentTo | src/main/java/com/zacwolf/commons/email/EmailSendLog.java:40-44 | true exactly for a recorded address; changes nothing |
| SendLedger.EmailSendLog.LogError | src/main/java/com/zacwolf/commons/email/EmailSendLog.java:46-50 | the text is appended and the old text stays a prefix; addresses unchanged |
| SendLedger.EmailSendLog.LogException | src/main/java/com/zacwolf/commons/email/EmailSendLog.java:52-56 | appends exactly `[ERROR]:` + the exception's toString + ` [MSG]:` + its message ("null" when absent) |
| SendLedger.EmailSendLog.GetErrors | src/main/java/com/zacwolf/commons/email/EmailSendLog.java:58-62 | returns the accumulated text; changes nothing |
| Attachments.DefaultExtension | src/main/java/com/zacwolf/commons/email/EmailAttachment.java:51-55 | an extension exists exactly for the three image types of the table |
| Attachments.New | src/main/java/com/zacwolf/commons/email/EmailAttachment.java:61-83 | a null contentid fails with the NPE message; otherwise stores the six fields, generates a file name only for a null one, sets the header file name from the raw argument, brackets a non-empty Content-ID and suppresses `inline` |
| Attachments.NewInline | src/main/java/com/zacwolf/commons/email/EmailAttachment.java:57-59 | the six-argument constructor with disposition `inline`, whose header disposition is null |
| Attachments.Clone | src/main/java/com/zacwolf/commons/email/EmailAttachment.java:90-97 | never null; reproduces all six fields; headers re-derived from the stored file name |
| Attachments.ReadObject | src/main/java/com/zacwolf/commons/email/EmailAttachment.java:105-126 | the header file name becomes the stored (never null) file name |
| Attachments.WrapContentIdBracketed | src/main/java/com/zacwolf/commons/email/EmailAttachment.java:75-77 | the Content-ID starts with `<` and ends with `>`; adds at most two characters; a bracketed id is kept as is, an unbracketed one gets both |
| Attachments.WrapContentIdIdempotent | src/main/java/com/zacwolf/commons/email/EmailAttachment.java:75-77 | wrapping twice equals wrapping once |
| Attachments.HeaderDispositionSuppressesInline | src/main/java/com/zacwolf/commons/email/EmailAttachment.java:78-82 | the header disposition is null iff the argument is null or `inline`, and otherwise is the argument |
| Attachments.DefaultFilenameExtensions | src/main/java/com/zacwolf/commons/email/EmailAttachment.java:51-55 | the default name ends in .png, .jpg or .gif for the known types and in ".null" otherwise |
| Attachments.ReadObjectRederivesHeaders | src/main/java/com/zacwolf/commons/email/EmailAttachment.java:114-121 | deserialisation re-derives the constructor's Content-ID, type and disposition headers; the file-name header differs only when the constructor got a null name |
| Attachments.CloneIsReadObject | src/main/java/com/zacwolf/commons/email/EmailAttachment.java:90-97 | a clone equals the deserialised original |
| Distributions.GroupOfGroup | src/main/java/com/zacwolf/commons/email/EmailDistribution.java:445-449 | a group whose name has no `:` is filed under its own name |
| Distributions.GroupToSetIsLeaves | src/main/java/com/zacwolf/commons/email/EmailDistribution.java:469-481 | groupToSet yields exactly the single addresses at the leaves of the group tree (independent reference `Leaves`) |
| Distributions.GroupToSetAllIsLeaves | src/main/java/com/zacwolf/commons/email/EmailDistribution.java:473-478 | the same for a group's member list |
| Distributions.FileAllContents | src/main/java/com/zacwolf/commons/email/EmailDistribution.java:441-461 | after filing, the groups are the old ones plus those of the addresses, and each group holds its old set plus the expansions filed under it |
| Distributions.Add2DistByAddress | src/main/java/com/zacwolf/commons/email/EmailDistribution.java:441-461 | the loop's map is FileAll of the inputs; the flag is true iff there is a last address and filing it created its group or grew its set |
| Distributions.FileAddress | src/main/java/com/zacwolf/commons/email/EmailDistribution.java:445-457 | one address: the new map is FileOne of the old, and the flag is true iff the group was missing or its set did not already hold the whole expansion |
| Distributions.GetFlatDist | src/main/java/com/zacwolf/commons/email/EmailDistribution.java:487-501 | null iff the role has no groups; otherwise, without duplicates, exactly the union of the groups |
| Distributions.TotalRemoveMember | src/main/java/com/zacwolf/commons/email/EmailDistribution.java:404-428 | removing a member from a group subtracts its hash from the hash total |
| Distributions.TotalAddMember | src/main/java/com/zacwolf/commons/email/EmailDistribution.java:404-428 | adding a new member to a group adds its hash to the total |
| Distributions.MoveKeepsEqual | src/main/java/com/zacwolf/commons/email/EmailDistribution.java:404-439 | moving an address between groups or roles keeps the distribution equal to the original |
| Distributions.EqualIgnoresRoles | src/main/java/com/zacwolf/commons/email/EmailDistribution.java:434-439 | two distributions that differ in an address's role are still equal |
| Distributions.ToJSONWithGroups | src/main/java/com/zacwolf/commons/email/EmailDistribution.java:324-345 | FROM and TO are always present; CC and BCC are present iff the role has a group; nothing else is |
| Distributions.DropEmpty | src/main/java/com/zacwolf/commons/email/EmailDistribution.java:503-515 | keeps exactly the groups with a non-empty array, unchanged |
| Distributions.Convert2InternetAddressSet | src/main/java/com/zacwolf/commons/email/EmailDistribution.java:503-515 | the loop builds DropEmpty of its input |
| Distributions.Assemble | src/main/java/com/zacwolf/commons/email/EmailDistribution.java:69-76 | succeeds iff all three roles were read; otherwise carries the first failure |
| Distributions.Decode | src/main/java/com/zacwolf/commons/email/EmailDistribution.java:69-76 | a decoded document has TO, CC and BCC keys |
| Distributions.FromJSON | src/main/java/com/zacwolf/commons/email/EmailDistribution.java:69-95 | the method's result is Decode of the document |
| Distributions.DropEmptyKeepsSum | src/main/java/com/zacwolf/commons/email/EmailDistribution.java:503-515 | dropping empty groups keeps a role's hash sum |
| Distributions.DecodeDropsEmptyGroups | src/main/java/com/zacwolf/commons/email/EmailDistribution.java:503-515 | decoding keeps the sender and, in each of TO, CC and BCC, exactly the groups whose array is non-empty, each with the set read |
| Distributions.RoundTripFailsWithoutCcOrBcc | src/main/java/com/zacwolf/commons/email/EmailDistribution.java:69-76 | decoding the with-groups JSON succeeds iff the distribution has both CC and BCC groups |
| Distributions.RoundTripWithCcAndBcc | src/main/java/com/zacwolf/commons/email/EmailDistribution.java:529-535 | with CC and BCC groups, the round trip yields the distribution minus its empty groups, and it is equal to the original |
| Distributions.DecodeFixed | src/main/java/com/zacwolf/commons/email/EmailDistribution.java:69-76 | the corrected decoder agrees with the original wherever the original succeeds |
| Distributions.RoundTripFixed | src/main/java/com/zacwolf/commons/email/EmailDistribution.java:324-345 | with absent CC/BCC read as empty, every distribution survives the round trip up to equality |
| Distributions.GroupTypes | src/main/java/com/zacwolf/commons/email/EmailDistribution.java:295-305 | corrected getGroupTypes: defined exactly for the three list types, giving that role's group names |
| Distributions.GroupTypesRejectsListTypes | src/main/java/com/zacwolf/commons/email/EmailDistribution.java:295-305 | as written, each real list type is refused where the corrected version answers |
| Distributions.EmailDistribution.Of | src/main/java/com/zacwolf/commons/email/EmailDistribution.java:85-95 | the protected constructor takes the given sender and roles |
| Distributions.EmailDistribution.constructor | src/main/java/com/zacwolf/commons/email/EmailDistribution.java:136-143 | TO is the filing of the given addresses; CC and BCC are empty |
| Distributions.EmailDistribution.Clone | src/main/java/com/zacwolf/commons/email/EmailDistribution.java:152-154 | a fresh distribution with the same value, hence equal |
| Distributions.EmailDistribution.Remove | src/main/java/com/zacwolf/commons/email/EmailDistribution.java:176-201 | an unknown list type or a missing group throws; otherwise the address leaves that group, the result is whether it was there, and nothing else changes |
| Distributions.EmailDistribution.RemoveStatic | src/main/java/com/zacwolf/commons/email/EmailDistribution.java:163-165 | remove(listtype, group, address) with the "staticaddr" group: the unknown-listtype and missing-group exceptions with no change; otherwise the result says whether the address was there, it is taken out of that group, and last_changed grows by one exactly when it was |
| Distributions.EmailDistribution.SetFROM | src/main/java/com/zacwolf/commons/email/EmailDistribution.java:207-215 | a group is refused with no change; a single address is stored; last_changed moves only when it differs |
| Distributions.EmailDistribution.AddTO | src/main/java/com/zacwolf/commons/email/EmailDistribution.java:222-228 | null text throws; a parse error is passed on with no change; otherwise TO is the filing of the parsed addresses, and last_changed moves iff the result is true |
| Distributions.EmailDistribution.AddCC | src/main/java/com/zacwolf/commons/email/EmailDistribution.java:236-245 | null or empty text gives false with no change; otherwise as addTO, on CC |
| Distributions.EmailDistribution.AddBCC | src/main/java/com/zacwolf/commons/email/EmailDistribution.java:252-261 | the same, on BCC |
| Distributions.EmailDistribution.GetRecipients | src/main/java/com/zacwolf/commons/email/EmailDistribution.java:273-289 | getTO/getCC/getBCC: null iff the role has no group; otherwise the role's addresses without duplicates |
| Distributions.EmailDistribution.GetGroupTypes | src/main/java/com/zacwolf/commons/email/EmailDistribution.java:295-305 | the as-written lookup, which throws for LISTTYPE_TO |
| Distributions.EmailDistribution.HashCode | src/main/java/com/zacwolf/commons/email/EmailDistribution.java:404-428 | the three loops compute the sender's hash plus every member's hash, in int arithmetic |
| Distributions.EmailDistribution.Equals | src/main/java/com/zacwolf/commons/email/EmailDistribution.java:434-439 | false for null; otherwise true iff the hashes agree |
| Distributions.AddGroupHash | src/main/java/com/zacwolf/commons/email/EmailDistribution.java:408-410 | the inner loop adds every member hash of one group, wrapped to int, in any iteration order |
| Distributions.AddRoleHash | src/main/java/com/zacwolf/commons/email/EmailDistribution.java:409-427 | one role loop adds the role's hash sum, wrapped to int |
| Distributions.HashChain | src/main/java/com/zacwolf/commons/email/EmailDistribution.java:404-428 | wrapping after each role equals wrapping the total |
| Distributions.RolesHash | src/main/java/com/zacwolf/commons/email/EmailDistribution.java:404-428 | the three role loops, run after the sender's hash, give the wrapped sum of that hash and every group member's hash |
| Styles.AppendStyleSets | src/main/java/com/zacwolf/commons/email/Email.java:309-311 | afterwards the style mentions the property; a style that mentioned it is untouched; any other gets the declaration after a separating `;` |
| Styles.AppendStyleIdempotent | src/main/java/com/zacwolf/commons/email/Email.java:377-381 | applying a style rule twice equals applying it once |
| Styles.AppendStyleRule | src/main/java/com/zacwolf/commons/email/Email.java:309-311 | for any property: the style ends up mentioning it, the rule is idempotent, a style that had it is kept, and otherwise the declaration is appended, after a `;` exactly when the style does not end with one |
| Styles.ImgStyleRule | src/main/java/com/zacwolf/commons/email/Email.java:309-311 | the image rule: `display:block;` appended, with `;` only when missing; idempotent |
| Styles.ImgStyleEmpty | src/main/java/com/zacwolf/commons/email/Email.java:309-311 | an empty style becomes `;display:block;` |
| Styles.TableStyleRule | src/main/java/com/zacwolf/commons/email/Email.java:377-381 | the table rule: `border-spacing:0;` appended the same way; idempotent |
| Mime.CidOf | src/main/java/com/zacwolf/commons/email/Email.java:301-302 | an id exists iff the src starts with `cid:`, and it is the rest of the src |
| Mime.EmbedError | src/main/java/com/zacwolf/commons/email/Email.java:353-354 | the rethrown NullPointerException and its message |
| Mime.CidsAreTheReferences | src/main/java/com/zacwolf/commons/email/Email.java:300-307 | the looked-up ids are exactly the ids of the cid images |
| Mime.EmbeddedInImageOrder | src/main/java/com/zacwolf/commons/email/Email.java:300-351 | one embedded attachment per cid reference, in image order, each the map's entry for its id |
| Mime.PrepareImgs | src/main/java/com/zacwolf/commons/email/Email.java:297-357 | fails with the embedding exception iff some cid image does not resolve; otherwise restyles the cid images and embeds their attachments |
| Mime.PrepareTables | src/main/java/com/zacwolf/commons/email/Email.java:377-381 | every table gets the table rule |
| Mime.RelatedUnitShape | src/main/java/com/zacwolf/commons/email/Email.java:195-201 | the related unit is the HTML part followed by one part per cid image, in order |
| Mime.TopUnitShape | src/main/java/com/zacwolf/commons/email/Email.java:204-238 | without plain text the related unit is the top; with it, an alternative of the plain text and the wrapped related unit |
| Mime.CollectNonInline | src/main/java/com/zacwolf/commons/email/Email.java:277-282 | the loop collects exactly the attachments with a non-null, non-inline disposition |
| Mime.MixedOf | src/main/java/com/zacwolf/commons/email/Email.java:284-293 | the mixed unit holds the wrapped top unit first, then each attachment of the set exactly once, and nothing else |
| Mime.Mix | src/main/java/com/zacwolf/commons/email/Email.java:276-294 | the result is AssembledFrom the top unit: the top itself, or a mixed unit wrapping it followed by each non-inline attachment exactly once |
| Mime.Retitled | src/main/java/com/zacwolf/commons/email/Email.java:361-363 | a document with a `<title>` gets the subject as its title text; images and tables are untouched; a document without one is unchanged |
| Mime.AssemblyFailure | src/main/java/com/zacwolf/commons/email/Email.java:179-295 | no failure iff the body and the map exist, every cid image resolves, and the subject is non-null when the document has a `<title>` |
| Mime.GetAsMultipart | src/main/java/com/zacwolf/commons/email/Email.java:179-295 | null body, unresolvable image, `<title>` with a null subject, null map: each fails with its exception, in that order; otherwise the structure above over the retitled document |
| Messages.Email.constructor | src/main/java/com/zacwolf/commons/email/Email.java:73-78 | a fresh empty ledger; every optional field null |
| Messages.Email.SetBody | src/main/java/com/zacwolf/commons/email/Email.java:80-88 | null throws with no change; an equal body changes nothing; a different one is stored and counted; nothing else changes |
| Messages.Email.SetBodyPlainText | src/main/java/com/zacwolf/commons/email/Email.java:90-98 | the same, for the plain text |
| Messages.Email.SetSubject | src/main/java/com/zacwolf/commons/email/Email.java:100-108 | the same, for the subject |
| Messages.Email.SetDistribution | src/main/java/com/zacwolf/commons/email/Email.java:110-114 | replaced unless the current distribution exists and equals the new one; last_changed untouched |
| Messages.Email.AddAttachment | src/main/java/com/zacwolf/commons/email/Email.java:116-121 | the map is created first; a null attachment then fails; otherwise it is stored under its content-id and no other key changes |
| Messages.Email.GetAsMultipart | src/main/java/com/zacwolf/commons/email/Email.java:179-295 | getAsMultipart over the message's own body, subject, plain text and attachments, with the same failures in the same order |
| Messages.Email.CompareTo | src/main/java/com/zacwolf/commons/email/Email.java:385-387 | the reference ids compared ignoring case |
| Messages.Email.HashCode | src/main/java/com/zacwolf/commons/email/Email.java:390-392 | the reference id's String hash, an int |
| Messages.Email.Equals | src/main/java/com/zacwolf/commons/email/Email.java:395-401 | true iff the other object is a template or template-derived message with the same hash |
| Messages.CompareIgnoreCaseAntisymmetric | src/main/java/com/zacwolf/commons/email/Email.java:385-387 | compareTo(a, b) == -compareTo(b, a) |
| Messages.CompareIgnoreCaseZero | src/main/java/com/zacwolf/commons/email/Email.java:385-387 | compareTo is 0 iff the ids are equal after case folding |
| Messages.CompareToInconsistentWithEquals | src/main/java/com/zacwolf/commons/email/Email.java:385-401 | "A" and "a" compare as 0 but hash differently, so compareTo and equals disagree |
| Messages.CreateClip | src/main/java/com/zacwolf/commons/email/Email.java:450-468 | the size is clamped in place on each axis whose end passes the image, and the clip is at (clipX, clipY) with the new size |
| Messages.ClampExtentFits | src/main/java/com/zacwolf/commons/email/Email.java:456-462 | without overflow the clamped extent fits, never grows, is kept when it fits, and clamping is idempotent |
| Messages.ClampExtentOverflow | src/main/java/com/zacwolf/commons/email/Email.java:451-457 | with int overflow a too-wide clip passes the fit test |
| Messages.ToHexStringCorrect | src/main/java/com/zacwolf/commons/email/Email.java:481-483 | toHexString reads back to its number, uses only hex digits, and has no leading zero |
| Messages.Color2HexCorrect | src/main/java/com/zacwolf/commons/email/Email.java:481-483 | always six lower-case hex digits denoting the colour's low 24 bits |
| Templates.NatTextRoundTrip | src/main/java/com/zacwolf/commons/email/EmailFromTemplate.java:39 | the decimal text of a number reads back to it |
| Templates.IntTextRoundTrip | src/main/java/com/zacwolf/commons/email/EmailFromTemplate.java:39 | the same for a signed send id |
| Templates.RefidInjective | src/main/java/com/zacwolf/commons/email/EmailFromTemplate.java:39 | every refid starts with `sid_`, and distinct send ids give distinct refids |
| Templates.EmailFromTemplate.Create | src/main/java/com/zacwolf/commons/email/EmailFromTemplate.java:38-43 | fails iff the template has no body or no distribution; otherwise refid `sid_<sid>`, body the template's content section, and a fresh distribution equal in value to the template's |
| Templates.EmailFromTemplate.GetSubject | src/main/java/com/zacwolf/commons/email/EmailFromTemplate.java:45-51 | its own subject if present, else the template's |
| Templates.EmailFromTemplate.GetOwnBody | src/main/java/com/zacwolf/commons/email/EmailFromTemplate.java:62-64 | its own stored body, whatever the argument |
| Templates.EmailFromTemplate.GetBodyPlainText | src/main/java/com/zacwolf/commons/email/EmailFromTemplate.java:66-72 | its own plain text if present and non-empty, else the template's |
| Templates.EmailFromTemplate.GetAttachments | src/main/java/com/zacwolf/commons/email/EmailFromTemplate.java:74-84 | never null; keys are the union of both maps; the template's attachment wins on a shared id |
| Templates.EmailFromTemplate.GetBody | src/main/java/com/zacwolf/commons/email/EmailFromTemplate.java:53-60 | the merge of the template's text with the own body; fails without both |
| Templates.EmailFromTemplate.GetAsMultipart | src/main/java/com/zacwolf/commons/email/Email.java:179-295 | assembly through the overriding getters: never fails for a missing map, only for the body, an unresolved image, or a `<title>` when neither message has a subject |
| Templates.FallsBackToTemplate | src/main/java/com/zacwolf/commons/email/EmailFromTemplate.java:45-84 | with no parts of its own, the message shows the template's subject, plain text and attachments |
| Dispatch.ChunksFrom | src/main/java/com/zacwolf/commons/email/_EMAILfactory.java:99-109 | at least one chunk, none longer than 200 |
| Dispatch.ChunkCount | src/main/java/com/zacwolf/commons/email/_EMAILfactory.java:99-109 | a role of length L is cut into floor(L/200) + 1 chunks |
| Dispatch.ChunkAt | src/main/java/com/zacwolf/commons/email/_EMAILfactory.java:102-106 | every chunk but the last holds the next 200 consecutive addresses |
| Dispatch.ChunkLast | src/main/java/com/zacwolf/commons/email/_EMAILfactory.java:102-106 | the last chunk holds the remaining L mod 200 addresses |
| Dispatch.ChunkConcat | src/main/java/com/zacwolf/commons/email/_EMAILfactory.java:99-109 | the chunks concatenated are the role's array |
| Dispatch.ChunksEndEmpty | src/main/java/com/zacwolf/commons/email/_EMAILfactory.java:101-104 | a length that is a multiple of 200 ends in an empty chunk |
| Dispatch.Split | src/main/java/com/zacwolf/commons/email/_EMAILfactory.java:91-182 | the recursion submits exactly Batches of its arrays, in order |
| Dispatch.SplitRole | src/main/java/com/zacwolf/commons/email/_EMAILfactory.java:99-109 | the index/num copy loop recurses once per chunk, in chunk order |
| Dispatch.SmallBatchSentWhole | src/main/java/com/zacwolf/commons/email/_EMAILfactory.java:139-141 | a distribution within the limit is submitted once, as it is |
| Dispatch.BatchesAreLeaves | src/main/java/com/zacwolf/commons/email/_EMAILfactory.java:139-141 | every submitted batch has at most 200 addresses in every role |
| Dispatch.BatchesKeepSmallRoles | src/main/java/com/zacwolf/commons/email/_EMAILfactory.java:107-133 | a role within the limit reaches every batch unchanged; something is always submitted |
| Dispatch.OnlyToSplit | src/main/java/com/zacwolf/commons/email/_EMAILfactory.java:98-110 | with only TO oversized: one batch per TO chunk, in order, each with the full CC and BCC; an exact multiple of 200 gives a last batch with an empty TO |
| Dispatch.OneRoleSplit | src/main/java/com/zacwolf/commons/email/_EMAILfactory.java:98-135 | with one role oversized, its copy loop submits one batch per chunk, in order, the chunk in place of the role's array |
| Dispatch.OnlyCcShape | src/main/java/com/zacwolf/commons/email/_EMAILfactory.java:111-122 | with only CC oversized: one batch per CC chunk, in order, each with the full TO and BCC |
| Dispatch.BatchesCover | src/main/java/com/zacwolf/commons/email/_EMAILfactory.java:98-141 | every TO, CC and BCC address reaches the same role of some batch |
| Dispatch.ToLoopPairs | src/main/java/com/zacwolf/commons/email/_EMAILfactory.java:98-110 | with TO and CC oversized, the TO loop submits every (TO chunk, CC chunk) pair, TO-major |
| Dispatch.CcLoopPairs | src/main/java/com/zacwolf/commons/email/_EMAILfactory.java:111-122 | with TO and CC oversized, the CC loop submits every (TO chunk, CC chunk) pair again, CC-major |
| Dispatch.ToAndCcBothShape | src/main/java/com/zacwolf/commons/email/_EMAILfactory.java:98-123 | with TO and CC oversized: the TO-major pairs, then the CC-major pairs, 2 × (TO chunks × CC chunks) batches |
| Dispatch.ToAndCcBothSplitTwice | src/main/java/com/zacwolf/commons/email/_EMAILfactory.java:98-123 | with TO and CC oversized, the batch of every TO chunk with every CC chunk is submitted twice, at two distinct positions |
| Dispatch.RetryKeepsTo | src/main/java/com/zacwolf/commons/email/_EMAILfactory.java:190-235 | the retry keeps sender and TO, only removes from CC and BCC, removes every invalid address, and only happens when valid-unsent is non-null |
| Dispatch.RefusedNotRecorded | src/main/java/com/zacwolf/commons/email/_EMAILfactory.java:212-248 | a CC/BCC address removed for the retry is not recorded, unless it is a TO address or was recorded before |
| Dispatch.InvalidLinesMention | src/main/java/com/zacwolf/commons/email/_EMAILfactory.java:212-218 | the error text has an `Invalid email address for address:` line for each invalid address |
| Dispatch.NullCcOrBccLogsNpe | src/main/java/com/zacwolf/commons/email/_EMAILfactory.java:151-177 | a null CC or BCC array records nothing and logs `[ERROR]:java.lang.NullPointerException [MSG]:null` |
| Dispatch.SentAddressesNotResent | src/main/java/com/zacwolf/commons/email/_EMAILfactory.java:148-168 | CC/BCC addresses already in the ledger are left off, the others kept; TO is set as given |
| Dispatch.FailedSendStillRecorded | src/main/java/com/zacwolf/commons/email/_EMAILfactory.java:237-248 | after a send that failed outright, every recipient is still recorded |
| Dispatch.RunAllGrows | src/main/java/com/zacwolf/commons/email/EmailSendLog.java:33-56 | over any batches the ledger only grows: addresses added, errors appended |
| Dispatch.AssemblyFailureRecordsNothing | src/main/java/com/zacwolf/commons/email/_EMAILfactory.java:172-177 | a message that cannot be assembled records no address |
| Dispatch.Deduplicate | src/main/java/com/zacwolf/commons/email/_EMAILfactory.java:150-158 | the dedup loop keeps exactly the addresses the ledger does not hold |
| Dispatch.RemoveAll | src/main/java/com/zacwolf/commons/email/_EMAILfactory.java:212-225 | the removal loops take the listed addresses out of CC and BCC and, for the invalid list, build the error lines |
| Dispatch.RecordAll | src/main/java/com/zacwolf/commons/email/_EMAILfactory.java:245-247 | every recipient of the message is recorded |
| Dispatch.Send | src/main/java/com/zacwolf/commons/email/_EMAILfactory.java:184-254 | the ledger gains the final recipients and the error text given by AfterSend |
| Dispatch.RunLeaf | src/main/java/com/zacwolf/commons/email/_EMAILfactory.java:142-180 | the Runnable of one batch changes the ledger exactly as RunBatch says |
| Dispatch.RunBatches | src/main/java/com/zacwolf/commons/email/_EMAILfactory.java:142-180 | the batches run in order, from ledger state to ledger state, as RunAll says |
| Dispatch.SendToRecipients | src/main/java/com/zacwolf/commons/email/_EMAILfactory.java:91-182 | a null TO array fails with no change; otherwise the ledger ends as RunAll over Batches |
| Dispatch.SendToDistribution | src/main/java/com/zacwolf/commons/email/_EMAILfactory.java:82-89 | succeeds iff the distribution has a TO group; the returned arrays are the roles flattened without repetition; the ledger ends as RunAll over their Batches with the given assembly outcome |
| Dispatch.SendEmailMessage | src/main/java/com/zacwolf/commons/email/_EMAILfactory.java:82-89 | succeeds iff there is a distribution with a TO group, otherwise fails with no change; the ledger ends as RunAll over the Batches of the flattened roles with the message's AssemblyFailure, so it gains no address when the message cannot be assembled |
| Dispatch.TemplateFailure | src/main/java/com/zacwolf/commons/email/EmailFromTemplate.java:45-84 | a template message fails to assemble iff its merged body is missing or its assembly fails |
| Dispatch.SendFromTemplate | src/main/java/com/zacwolf/commons/email/_EMAILfactory.java:82-89 | the same for a template-derived message, through its own ledger and distribution, with TemplateFailure as the outcome |

## Left out

- Concurrency: the thread pool and `synchronized`. The batches are run one after another, in submission order, against a shared ledger. Leaf tasks running concurrently could interleave their ledger reads and writes; the model does not capture that.
- Dispatch.SendEmailMessage: the Java task calls `getAsMultipart` again in every batch. The model calls it once per send. The message does not change while it is sent, so each call would fail or succeed alike.
- JavaMail: the session, the authenticator, the mailcap registration, and `MimeMessage` headers other than the recipients. `Transport.send` is a function parameter. Only the outcome of the first send is looked at; the retry's outcome is ignored, as in the source.
- Dispatch.Envelope: CC and BCC are sets, because they come from a `HashSet`. `ArrayList.remove` of a refused address therefore becomes set difference.
- jsoup:
  - HTML parsing and serialisation, `removeComments`, the date rewriting, `bodyReplaceAll`, `getAsHTML` and `dataurlEncode`;
  - Mime.Retitled: jsoup's `html(subject)` parses the subject as markup; the model stores it as the title's text;
  - the document is a parameter reduced to image `src`/`style` values and table styles;
  - setting an image's `alt` from the attachment description is not modelled;
  - jsoup refuses a null body with its own exception; the model reports a null-pointer exception without a message;
  - Mime.TITLE_ERROR: a null subject for the `<title>` is reported as jsoup's `IllegalArgumentException` with the message `Object must not be null`; other jsoup versions word it differently.
- The banner and footer branch of `prepareImgs`, `makeRoundedBanner`, `makeRoundedFooter` and `getColorFromStyle`: AWT raster work with floating point.
- Templates.EmailFromTemplate.GetBody: the template merge (selecting `#content` and replacing its HTML) is a parameter `fill`. The constructor's `#content` extraction is a parameter `content`.
- Address parsing (`InternetAddress.parseHeader`, `getGroup`) is the parameter `parse`:
  - `remove` takes its address as text, so the address check that `new InternetAddress(address)` performs is not modelled;
  - personal names are not modelled;
  - addresses compare as exact strings, not case-insensitively as `InternetAddress.equals` does.
- Jackson text: `toJSONflat`, `toString`, `toString_LISTTYPE` and bean mapping. JSON is a map value, and a JSON array is the set of its elements.
- Serialisation streams (`writeObject`/`readObject` I/O). Only the header re-derivation of `readObject` is modelled.
- Clocks: `last_changed` is a version counter bumped by one, and the default file name's timestamp is a parameter.
- Distributions.EmailDistribution.Clone: the Java clone copies the role maps but shares their group sets with the original. The model clones by value, so that later aliasing is not captured.
- Dispatch.NullCcOrBccLogsNpe: the logged text is that of a NullPointerException without a message, as Java 8 throws it. From Java 15 on, helpful NullPointerException messages would put a description after `[MSG]:`.
- Mime.EmbedError: the same holds for the cause's text after `ERROR:`, which is taken as `java.lang.NullPointerException`, the Java 8 text; helpful NullPointerException messages would append a description.
- Dispatch.Transport: the transport is a function of the envelope, so two sends of the same envelope are assumed to have the same outcome.
- Distributions.Decode: a missing or non-address FROM entry is taken as a null-pointer failure. How Jackson decodes a null sender is not modelled, and the Java constructors would accept a null `from` and fail only later.
- Common.StringHash: characters are taken as UTF-16 code units in the Basic Multilingual Plane.
- Messages.CompareIgnoreCase: case folding covers ASCII letters only.
- Mime.NonInline: attachments are values. Two map entries holding identical attachments count once in the mixed unit, whereas in Java they are distinct objects.
- `main` of `EmailDistribution` is a demonstration; its round trip is the lemma `RoundTripWithCcAndBcc`.
- `EmailTemplate` and `_THREADfactory` are not part of this model. A template is an `Email` whose class is `TemplateClass`, and its getters return its fields.

## Findings

| source | as written | input that shows it | evidently intended | confidence | as-written member | corrected member |
|---|---|---|---|---|---|---|
| src/main/java/com/zacwolf/commons/email/EmailDistribution.java:295-305 | getGroupTypes compares the list type with the literals "LISTTYPE_TO", "LISTTYPE_CC" and "LISTTYPE_BCC", not with the constants' values | `getGroupTypes(LISTTYPE_TO)` throws, though LISTTYPE_TO is the value every other method accepts | look the role up by the constants LISTTYPE_TO, LISTTYPE_CC and LISTTYPE_BCC | high (not executed) | Distributions.GroupTypesRejectsListTypes | Distributions.GroupTypes |
| src/main/java/com/zacwolf/commons/email/EmailDistribution.java:69-76 | fromJSON reads CC and BCC unconditionally, but toJSONWithGroups leaves them out for a role without groups | a distribution with TO groups only: decoding its own with-groups JSON fails with a null-pointer exception | an absent CC or BCC decodes as a role without groups, so every encoded distribution decodes to an equal one | high (not executed) | Distributions.RoundTripFailsWithoutCcOrBcc | Distributions.RoundTripFixed |
