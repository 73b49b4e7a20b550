# Verified core of the archive reader, the codecs and the checkers

A Dafny model of the self-contained parsers, codecs and checkers of the repository, with proofs of
what each is for. `dafny verify dfyconfig.toml` checks everything.

| file | models |
|---|---|
| `ZipFields`, `ZipDirectory`, `ApkInventory` | the ZIP end record, directory and member headers of `src/apk_intel.rs`, and the walk over them |
| `ApkNames` | the names the walk looks for, by their shapes, and what it reports of each |
| `SigningBlock` | the length-prefixed APK signing block of the same file |
| `ApkInflation` | reading members under one shared decreasing budget |
| `ApkWriter` | the archive writer at the end of the same file, which reading inverts |
| `Base64` | `src/base64.rs` |
| `AeId`, `AuId` | the check-digit arithmetic and grammars of `src/ae_id.rs` and `src/au_id.rs` |
| `ArchivedPage` | the choice of captures in `src/archived_page.rs` |
| `BreachRecord`, `BreachExposure`, `BreachAccount` | `src/breach_record.rs`: its tests of keys and values, what an entry exposes by what it shows, and the bounded accounts records fill |
| `Canonical` | the query strings of `src/canonical.rs` |
| `AddressAu` | the mobile register and the operator words of `src/address_au.rs` |
| `Prelude`, `Positional`, `Text`, `Utf8`, `Sorting` | result types and 64-bit sizes, numerals, text, its bytes, sorting |

Loops and in-place updates of the source are methods with invariants, each proved equal to a
specification function; what the source promises is then proved of that function. A method that
fills a buffer fills an array, and the account of a breach and the inflation budget are classes. The
tests at the leaves (names, alphabets, weights, ranks, words) are each shown to be exactly a definition
written apart from them.

## Where the code and its promises part

* Canonicalising a query twice is not the same as once for `=&a`: the bare `=` is written as an empty
  part, which the next pass drops. `Canonical.CanonicalIdempotent` gives the exact condition: some part
  is a bare `=` and more than one pair is kept; `Canonical.CanonicalTwice` is that query.
* The IBAN check accepts the check pairs 00, 01 and 99 beside the standard's 02 to 98.
  `AeId.CheckPairUnique` states which pairs are accepted: those congruent to one pair modulo 97;
  `AeId.CheckPairAliases` says which bodies have a second one, and `AeId.AliasAccepted` shows one of each.
* The ACN check digit misses some substitutions in the body: exactly the counts the comment in
  `src/au_id.rs` gives, for every valid number (`AuId.AcnBlindSpots`, `AuId.AcnUpdate`).
* Luhn misses the transposition of 0 and 9 and no other (`AeId.LuhnTransposition`).
* The mobile lookup is documented for ten-digit `04` numbers; it also reads the nine digits with no
  trunk `0` and with more than one. `AddressAu.OtherSpellings` is both, for every number;
  `AddressAu.DocumentedExact` says which texts that are read are documented: those with ten digits, or
  eleven with a plus sign, or thirteen after `0061`.
* The writer can produce archives the reader refuses: none or more than 8192 parts, no manifest, or a
  directory at the ZIP64 marker offset. `ApkWriter.WrittenMembers` shows these are the only ones.

## Model

| member | source | states |
|---|---|---|
| ZipFields.LeRoundTrip | src/apk_intel.rs:160-173 | a little-endian field holds any number below its width's power and gives it back |
| ZipFields.LeBytesOfValue | src/apk_intel.rs:160-173 | a field's bytes are the encoding of the number read from them, which is below the width's power |
| ZipFields.CheckedRange | src/apk_intel.rs:175-177 | bytes are returned exactly when the whole range is inside the file, and are that range |
| ZipFields.FieldExact | src/apk_intel.rs:160-173 | a field is read as `n` if and only if the encoding of `n` stands there |
| ZipFields.LeBytesAt | src/apk_intel.rs:160-173 | the byte at place `k` is the number's digit of that place in base 256, least first |
| ZipDirectory.FindEndRecord | src/apk_intel.rs:180-195 | the backward scan of at most 65,557 bytes returns the greatest offset of an end record in the whole file, and fails only when there is none |
| ZipDirectory.EndRecordExact | src/apk_intel.rs:188-190 | an end record is its signature and a comment length that reaches the end of the file exactly |
| ZipDirectory.ReadDirectoryBounds | src/apk_intel.rs:430-469 | the count and bounds of the last end record, with every refusal in the source's order |
| ZipDirectory.BoundsExact | src/apk_intel.rs:430-469 | bounds are accepted if and only if the last end record states them: one disk, both counts equal and within 8192, no ZIP64 marker, directory before the record |
| ZipDirectory.PayloadStartExact | src/apk_intel.rs:354-377 | a payload starts where it does if and only if a local header there names the same member |
| ZipDirectory.MemberExact | src/apk_intel.rs:313-396 | an entry is accepted as a member if and only if the central and local headers in the file state that member and its bounds hold |
| ZipDirectory.EntriesTile | src/apk_intel.rs:313-396 | entries read one after another leave no gap and no overlap |
| ZipDirectory.EntriesExact | src/apk_intel.rs:522-524 | the first entries of a directory are read as a list of members if and only if those members tile it that far |
| Utf8.Utf8Exact | src/apk_intel.rs:345-348 | a name is accepted if and only if it is the bytes of some text |
| ApkInventory.CountMember | src/apk_intel.rs:525-568 | counting one more member keeps every counter true of all members seen, and every list its first 32 names |
| ApkInventory.KeepMember | src/apk_intel.rs:537-562 | keeping one more member keeps what is handed on to be read true of all members seen |
| ApkInventory.Walk | src/apk_intel.rs:504-605 | the walk's inventory and archive, or its error, as a function of the bytes |
| ApkInventory.MembersExact | src/apk_intel.rs:504-575 | the walk lists exactly the members that tile the directory to its last byte, and only with a manifest among them |
| ApkInventory.WalkTiles | src/apk_intel.rs:504-575 | in an accepted archive `count` entries tile the directory exactly and every payload ends by its start, inside the file |
| ApkInventory.OmissionsExact | src/apk_intel.rs:576-597 | listed and omitted DEX names, and listed and omitted v1 artifacts, are together all there are |
| ApkInventory.ReadMembersChecked | src/apk_intel.rs:636-640 | every member handed on to be read was checked, so the unchecked payload slice is in range |
| ApkNames.DexNameExact | src/apk_intel.rs:197-205 | a DEX name is `classes`, digits or none, and `.dex`, and nothing else is |
| ApkNames.NativeAbiExact | src/apk_intel.rs:398-410 | a native library is `lib/`, an ABI, `/` and a file with a name before `.so`, and its ABI is that one |
| ApkNames.V1Exact | src/apk_intel.rs:420-428 | a v1 artifact is a file of `META-INF` itself with one of the four extensions |
| ApkNames.V1ReadExact | src/apk_intel.rs:412-428 | a v1 certificate is one with `.RSA`, `.DSA` or `.EC` |
| ApkNames.SuspiciousExact | src/apk_intel.rs:207-212 | a suspicious name is absolute, holds a backslash or NUL, or has `..` among its parts |
| ApkNames.ResourceXmlExact | src/apk_intel.rs:885-891 | a resource XML lies below `res`, is not suspicious, and its last part that names anything is a name and `.xml` |
| ApkNames.MarksExact | src/apk_intel.rs:41-44 | the signatures and the block's magic are those texts |
| ApkNames.WalkTells | src/apk_intel.rs:504-605 | by names, flags and methods alone: every count is the number of members of its kind, every list its first ones in order up to its limit, every member of a kind is handed on up to its limit, and the signing block is reported as read |
| SigningBlock.PairsRead | src/apk_intel.rs:261-289 | every pair list is read back from its encoding, wherever it stands |
| SigningBlock.PairsTile | src/apk_intel.rs:261-289 | pairs that are accepted tile their bytes exactly |
| SigningBlock.BlockExact | src/apk_intel.rs:234-260 | a block is accepted with a start and pairs if and only if the encoding of those pairs stands there and ends at the directory |
| SigningBlock.ReadPairs | src/apk_intel.rs:261-296 | one scan gives every known scheme that occurs, those repeated, and in order the values of the rest; a malformed pair list gives nothing |
| SigningBlock.ReadSigningBlock | src/apk_intel.rs:234-296 | the reader's result as a function of the bytes |
| SigningBlock.RetainFirst | src/apk_intel.rs:279-295 | dropping the repeated schemes from the first values leaves exactly the values of the others, in order |
| SigningBlock.ValuesKept | src/apk_intel.rs:290-295 | a value is kept if and only if a pair gave it and its scheme is not withheld |
| SigningBlock.SigningBlockInverts | src/apk_intel.rs:234-296 | reading inverts the encoding of every pair list, and anything present is the encoding of some list |
| SigningBlock.SummaryExact | src/apk_intel.rs:273-295 | by the identifiers of the pairs: which schemes occur, which occur again, and in order the value of each that does not, with its scheme |
| ApkInflation.Budget.constructor | src/apk_intel.rs:705-708 | a budget starts at the given bytes |
| ApkInflation.ReadMember | src/apk_intel.rs:613-669 | one read's result, and what it takes from the shared budget |
| ApkInflation.ReadExact | src/apk_intel.rs:613-669 | a read succeeds with `c` if and only if the member is in clear, within its limit and the budget, and its payload yields `c` of the stated size and checksum: inflated, stored, or taken as stored with the quirk noted |
| ApkInflation.ReadErrors | src/apk_intel.rs:620-668 | which error a failed read gives: the first of the conditions that fails, in the source's order |
| ApkInflation.ReadsWithin | src/apk_intel.rs:613-669 | in any sequence of reads, every success is within its own limit, of the declared size and checked |
| ApkInflation.ReadCost | src/apk_intel.rs:613-669 | a success costs exactly the bytes returned, checked against the CRC; a refusal or unknown method nothing; any other failure the declared size |
| ApkInflation.LeftAfter | src/apk_intel.rs:613-640 | the budget never grows and never goes below zero |
| ApkInflation.ReadAll | src/apk_intel.rs:705-723 | a sequence of reads shares one budget, in order |
| ApkInflation.SpentCharged | src/apk_intel.rs:613-669 | what a read took can be told from its outcome alone |
| ApkInflation.BudgetConserved | src/apk_intel.rs:613-669 | over any sequence of reads, failures included, the bytes returned, the declared sizes of members tried in vain and what is left are what there was; the bytes returned are at most the budget |
| ApkInflation.PlanHandedOn | src/apk_intel.rs:705-880 | everything analysis reads is a member the walk handed on |
| ApkInflation.PlanExact | src/apk_intel.rs:724-880 | the reads of one APK, one by one: which member, under which limit, in which order, and no other |
| ApkInflation.PolicyExact | src/apk_intel.rs:855-876 | the policy read is the one resource XML of exactly that path, when there is exactly one |
| ApkInflation.ReadApk | src/apk_intel.rs:705-880 | all reads of one APK, in the source's order and limits, are in range and return at most 256 MiB |
| ApkWriter.PutInto | src/apk_intel.rs:1565-1570 | writing a field in place changes that field's bytes and nothing else |
| ApkWriter.WriteLocalHeader | src/apk_intel.rs:1772-1778 | a fresh header in which every field stands at its offset, and zeros elsewhere |
| ApkWriter.WriteCentralHeader | src/apk_intel.rs:1782-1789 | a fresh header in which every field stands at its offset, the local offset included, and zeros elsewhere |
| ApkWriter.WriteSigningBlock | src/apk_intel.rs:1793-1802 | the writer's block is the encoding of the one v2 pair |
| ApkWriter.WriteEndRecord | src/apk_intel.rs:1806-1813 | a fresh record in which both counts, the size and the offset stand in place, and zeros elsewhere |
| ApkWriter.WriteParts | src/apk_intel.rs:1763-1792 | local entries and directory grow together, each entry with its offset |
| ApkWriter.WriteApk | src/apk_intel.rs:1760-1816 | the whole layout |
| ApkWriter.LocalRead | src/apk_intel.rs:354-377 | a written local entry is read with its payload right after its name |
| ApkWriter.MemberRead | src/apk_intel.rs:313-396 | a written entry is read as the part's name, method, checksum, sizes and payload place |
| ApkWriter.BoundsRead | src/apk_intel.rs:430-469 | the bounds read from a written archive, or the refusal, for every archive the fields can hold |
| ApkWriter.EntriesRead | src/apk_intel.rs:522-524 | a written directory is read as its parts, in order |
| ApkWriter.WrittenMembers | src/apk_intel.rs:504-575 | a written archive is accepted if and only if it has 1 to 8192 parts, a manifest and no ZIP64 offset; its members are then the parts in order |
| ApkWriter.SmallestAccepted | src/apk_intel.rs:504-605 | an archive of one empty stored manifest, 136 bytes long, is accepted |
| ApkWriter.WrittenSigning | src/apk_intel.rs:576-583 | the v2 value written is exactly the one signing value read, and its block starts where the members end |
| ApkWriter.WrittenUnsigned | src/apk_intel.rs:234-260 | with no v2 value, a block is read if and only if the local entries end in the encoding of some pairs |
| ApkWriter.PayloadsRead | src/apk_intel.rs:379-396 | the payload of each member is the packed part, and its fields state the part truly |
| ApkWriter.ContentsRead | src/apk_intel.rs:613-669 | every part of an accepted written archive is read back byte for byte, within limit and budget |
| Base64.EncodeGroup | src/base64.rs:113-129 | the symbols and padding of one to three bytes |
| Base64.Encode | src/base64.rs:111-131 | the encoding of a byte string in either alphabet, padded or not |
| Base64.LettersExact | src/base64.rs:7-8 | the symbols are the letters of the two alphabets of RFC 4648 |
| Base64.EncodedExact | src/base64.rs:111-131 | a text is the encoding if and only if it is the base 64 digits of the bytes' number, shifted by the spare bits, in the alphabet's letters, filled with `=` to a multiple of four when padded |
| Base64.SextetsValue | src/base64.rs:111-131 | the sextets written are the big-endian number the bytes write, shifted by the unused bits |
| Base64.EncodedInjective | src/base64.rs:14-22 | in either alphabet, padded or not, two byte strings have one encoding only when equal |
| Base64.SymbolDecodes | src/base64.rs:100-109 | the decoder inverts the standard alphabet |
| Base64.Validate | src/base64.rs:30-51 | validation finds the digits and padding of well-formed text, and refuses only text that encodes nothing |
| Base64.StripExact | src/base64.rs:32 | ASCII white space, and it alone, may stand anywhere in a text |
| Base64.ShiftedWraps | src/base64.rs:62 | the wrapping 32-bit accumulator is the unbounded one modulo 2^32 |
| Base64.StaleBitsUnseen | src/base64.rs:64-72 | the byte taken out and the pending bits are those of the unbounded accumulator, however much has wrapped away |
| Base64.ReadDigits | src/base64.rs:57-68 | output and pending bits together are the number the digits write; pending bits follow the digit count |
| Base64.ReadingLength | src/base64.rs:53-54 | the output is as long as the capacity computed beforehand |
| Base64.CanonicalDecodes | src/base64.rs:70-75 | text of accepted shape encodes exactly the bytes whose number it writes with unused bits zero |
| Base64.DecodeStandard | src/base64.rs:29-76 | text decodes to `b` if and only if, without white space, it is the encoding of `b` with or without its padding |
| Base64.RoundTrip | src/base64.rs:14-16 | an encoding, padded or not, encodes its bytes and no others |
| AeId.LuhnCatchesSubstitution | src/ae_id.rs:59-76 | Luhn rejects every single-digit error, in a number of any length |
| AeId.LuhnTransposition | src/ae_id.rs:59-76 | swapping two unequal neighbours passes if and only if they are 0 and 9 |
| AeId.LuhnExact | src/ae_id.rs:59-76 | a number of any length passes if and only if its last digit is the check digit of ISO/IEC 7812-1 for the rest |
| AeId.ReadGroup | src/ae_id.rs:90-95 | one group is read when all its digits are there |
| AeId.EmiratesId | src/ae_id.rs:82-101 | the identifier read, as a function of the text |
| AeId.EmiratesIdExact | src/ae_id.rs:78-101 | a text is read as `d` if and only if `d` is valid and the trimmed text is its printed groups with an optional separator at each boundary |
| AeId.EmiratesCheckDigit | src/ae_id.rs:82-101 | fourteen digits have exactly one check digit with which they are accepted when they start 784, and none otherwise, however grouped |
| AeId.IbanRemainder | src/ae_id.rs:105-117 | the streamed remainder is the whole rearranged decimal numeral modulo 97, and is absent only for short or non-alphanumeric text |
| AeId.ExpandedNumeral | src/ae_id.rs:103-117 | for a UAE number the numeral is the nineteen digits, 1014 and the check pair |
| AeId.IbanCatchesSubstitution | src/ae_id.rs:119-138 | replacing any one digit of a valid UAE IBAN makes it invalid |
| AeId.IbanCatchesSwap | src/ae_id.rs:119-138 | swapping any two unequal digits after `AE`, however far apart, makes it invalid |
| AeId.CheckPairUnique | src/ae_id.rs:119-138 | a check pair is accepted if and only if it is congruent modulo 97 to the body's one pair in 02 to 98 |
| AeId.CheckPairAliases | src/ae_id.rs:123-138 | 99, 00 or 01 is accepted if and only if the body's pair is 02, 97 or 98 |
| AeId.AliasAccepted | src/ae_id.rs:123-138 | bodies for which 02 and 99, 97 and 00, 98 and 01 are both accepted |
| AeId.ReadUaeIban | src/ae_id.rs:123-138 | the IBAN read, as a function of the text |
| AeId.UaeIbanExact | src/ae_id.rs:119-138 | a text is read as an IBAN if and only if that is valid and, trimmed, the text is it in any case with single spaces between characters |
| AeId.ChunkedReads | src/ae_id.rs:49-54 | printing in fours adds single inner spaces only, which reading removes |
| AeId.ChunkedAt | src/ae_id.rs:49-54 | a printed IBAN has a space after every fourth character and nowhere else |
| AeId.EmiratesPrinted | src/ae_id.rs:42-48 | a printed number has hyphens after its third, seventh and fourteenth digits and nowhere else |
| AeId.PrintedClassifies | src/ae_id.rs:39-56 | classifying a valid identifier as printed gives it back |
| AeId.ClassifyExact | src/ae_id.rs:153-163 | a token is classified as what one of the two readers reads it as, and no token is both |
| AuId.GroupedDigits | src/au_id.rs:27-42 | the loop accepts exactly digits with single separators between them, and returns the digits |
| AuId.GroupedExact | src/au_id.rs:25-42 | a text is grouped digits if and only if, trimmed, it is those digits with nothing, one space or one hyphen between |
| AuId.AbnExact | src/au_id.rs:47-62 | the check: one off the first digit, which is not zero, weights 10, 1, 3, 5 to 19, a sum that 89 divides |
| AuId.AbnLeadUnique | src/au_id.rs:47-62 | nine digits have exactly one valid lead in 10 to 98, and 99 is a second one if and only if that is 10 |
| AuId.AbnUpdate | src/au_id.rs:51-62 | what replacing one digit does to the weighted sum |
| AuId.AbnCatchesSubstitution | src/au_id.rs:51-62 | replacing any one digit of a valid ABN makes it invalid |
| AuId.AbnCatchesSwap | src/au_id.rs:51-62 | swapping any two unequal digits of a valid ABN makes it invalid, the lead included |
| AuId.AcnExact | src/au_id.rs:64-74 | the check: weights 8 down to 1 and the check digit give a sum that ten divides |
| AuId.AcnUpdate | src/au_id.rs:64-74 | a body replacement survives if and only if weight times change is a multiple of ten |
| AuId.WeightBlindSpots | src/au_id.rs:82-90 | which replacements each weight misses |
| AuId.AcnBlindSpots | src/au_id.rs:82-90 | the surviving replacements are 1, 0, 1, 4, 1, 0, 1, 0 over the body and none in the check digit, for every valid ACN |
| AuId.BareDigitsRead | src/au_id.rs:44-46 | bare digits are read back as themselves |
| AuId.NormaliseAbnExact | src/au_id.rs:96-102 | a text normalises to an ABN if and only if it is its eleven digits grouped and they pass |
| AuId.DeriveAcnExact | src/au_id.rs:104-112 | an ACN is derived if and only if it is the last nine digits of the ABN and passes its own check |
| AuId.NormaliseBsbExact | src/au_id.rs:142-158 | a BSB is six digits, alone or with one hyphen or space in the middle |
| AuId.NormaliseAbnStable | src/au_id.rs:96-102 | normalising twice is normalising once, and grouping does not matter |
| AuId.DerivedAcnIsValid | src/au_id.rs:104-112 | a derived ACN is a valid one |
| AuId.PrefixLongest | src/au_id.rs:181-188 | the institution found is that of the longest matching prefix |
| AuId.InstitutionsLongestFirst | src/au_id.rs:160-178 | the table lists its longest prefixes first |
| AuId.ClassifyExclusive | src/au_id.rs:205-228 | no token is two of ABN, ACN and BSB |
| AuId.ClassifyExact | src/au_id.rs:205-228 | what each token is classified as, and that nothing else is |
| AuId.ClassifyBare | src/au_id.rs:211-228 | the bare form of an identifier is classified as the same identifier |
| ArchivedPage.Choose | src/archived_page.rs:122-159 | the in-place dedup, sort and cut, as a function of the captures |
| ArchivedPage.NewestKeeps | src/archived_page.rs:123-149 | after the loop there is one capture for each URL, a latest one, with its rank |
| ArchivedPage.KeptExactly | src/archived_page.rs:123-149 | a capture is kept if and only if none of its URL is newer |
| ArchivedPage.ChosenIsTop | src/archived_page.rs:118-159 | the choice is the first three of the latest captures by rank, then newest, then URL |
| ArchivedPage.RankExact | src/archived_page.rs:133-145 | a URL's rank is its group: a contact word in the lower-cased path, a root, or neither |
| ArchivedPage.Roots | src/archived_page.rs:133-145 | the site's root is one with its slash or without |
| ArchivedPage.ChosenPrefers | src/archived_page.rs:118-159 | by URL and timestamp alone: the newest of each URL, at most three, contact pages first, then roots, then the rest, newest first, then by URL |
| ArchivedPage.TopUnique | src/archived_page.rs:150-158 | that description fixes the choice |
| ArchivedPage.ChosenForgetsOrder | src/archived_page.rs:118-128 | the choice does not depend on the order or repetition of the captures |
| ArchivedPage.TopOfTops | src/archived_page.rs:118-159 | the top of two parts' tops is the top of the whole |
| ArchivedPage.ChosenMerges | src/archived_page.rs:118-159 | choosing from two lists is choosing from their choices |
| BreachRecord.MarkedFromExact | src/breach_record.rs:176-180 | scanning for non-overlapping markers misses no marker |
| BreachRecord.MarkedExact | src/breach_record.rs:170-182 | a form is marked if and only if a marker stands in it anywhere but at the start of `passport` |
| BreachExposure.CredentialExact | src/breach_record.rs:170-182 | a key is held back if and only if `pwd`, `hash`, `salt` or a `pass` that begins no `passport` stands in it, as written or run together, in any case |
| BreachRecord.CredentialByFieldName | src/breach_record.rs:170-182 | a key and its field name agree on being a credential |
| BreachRecord.SplitWords | src/breach_record.rs:223-250 | the loop's words, as a function of the key |
| BreachRecord.WordsCut | src/breach_record.rs:219-250 | the words are cut at every word start and nowhere else |
| BreachRecord.WordsWhole | src/breach_record.rs:219-250 | run together, the words are the key's ASCII letters and digits in lower case |
| BreachExposure.NamesExact | src/breach_record.rs:186-217 | over the key's words, all-digit ones dropped and trailing digits stripped: it names a password if and only if it is held back, no word is of metadata, and some word names one by itself, is unclear and alone, or is unclear beside a companion, an unclear or a naming word |
| BreachRecord.HoldsExact | src/breach_record.rs:257-271 | a value holds a credential if and only if some path in it leads to an object entry that is named and counts |
| BreachExposure.PresentExact | src/breach_record.rs:285-296 | a value is present if and only if it is a number, `true`, text that is not blank, or a list or object that is not empty |
| BreachExposure.ExposesExact | src/breach_record.rs:94-100 | an entry exposes a password if and only if it holds something and its key, or a key at some depth over something, names one |
| BreachExposure.FieldOfExact | src/breach_record.rs:94-104 | the field an entry counts for, by what it shows |
| BreachExposure.TextOfExact | src/breach_record.rs:111-116 | the text an entry gives, by what it shows |
| BreachRecord.FieldName | src/breach_record.rs:273-283 | a field name is lower-case ASCII letters, digits and `_`, at least one and at most 48 bytes |
| BreachRecord.FieldNameExact | src/breach_record.rs:273-283 | a key has a field name if and only if what white space surrounds in it is, in lower case, such a name; and then it is that one |
| BreachRecord.RecordValue | src/breach_record.rs:156-165 | a kept text is not empty and at most 1024 bytes |
| BreachRecord.RecordValueExact | src/breach_record.rs:151-165 | the text kept is the whole value as written: a string within its white space, a number, `true` or compact JSON, never cut |
| Text.TrimExact | src/breach_record.rs:161 | trimming finds the one text that only white space surrounds |
| Utf8.ByteLengthExact | src/breach_record.rs:164 | the length tested is the number of the text's UTF-8 bytes |
| BreachAccount.Breach.constructor | src/breach_record.rs:86-91 | an account starts empty |
| BreachAccount.Breach.Expose | src/breach_record.rs:86-122 | the new account after one batch of entries |
| BreachAccount.Breach.MergeFields | src/breach_record.rs:133-137 | the fields after folding another account's in, in order, within the bound |
| BreachAccount.FoldValues | src/breach_record.rs:142-148 | one field's values after folding in another's, in order, stopping at the bound |
| BreachAccount.Breach.Merge | src/breach_record.rs:127-150 | the new account after folding in another one |
| BreachAccount.RunTells | src/breach_record.rs:77-150 | after any run of exposing and merging: the bounds hold, the fields are as many of those named as the bound allows, the password flag is set if and only if some entry shows a password, and values are ones their records gave |
| BreachAccount.GivenExact | src/breach_record.rs:92-118 | the fields and values meant are those the entries show |
| BreachAccount.ValuesStay | src/breach_record.rs:107-120 | exposing never lets go of a value |
| BreachAccount.MergeStays | src/breach_record.rs:127-150 | merging never lets go of anything, and of what does not fit takes the least |
| BreachAccount.KeptReaching | src/breach_record.rs:77-150 | after any run a kept field holds, as its bound allows, exactly the values given to it by the accounts that kept it |
| BreachAccount.RunKeptFull | src/breach_record.rs:77-150 | when no account merged in was shown more fields than it could keep, a kept field has lost no value but to its own bound, however many fields the run names |
| BreachAccount.NothingLost | src/breach_record.rs:77-150 | while no bound is reached an account is exactly the union of what its records gave |
| BreachAccount.RunsAgree | src/breach_record.rs:77-150 | order, grouping and repetition of the entries do not matter: never for the flag, and for nothing at all within the bounds |
| BreachAccount.KeptIsSafe | src/breach_record.rs:77-122 | every kept value is a record's own text of at most 1024 bytes under a name that is no credential, from a value with no credential key at any depth |
| Text.CaseExact | src/canonical.rs:344 | lower-casing moves the twenty-six capitals to their small letters and nothing else |
| Canonical.KeptPairsJoin | src/canonical.rs:335-347 | the pairs of two queries joined by `&` are the pairs of both |
| Canonical.SplitJoin | src/canonical.rs:336-359 | parts without `&` are split back from their join |
| Canonical.SplitExact | src/canonical.rs:336-338 | the parts are what the `&` separate |
| Canonical.PartExact | src/canonical.rs:338-347 | a part gives a pair if and only if it is not empty, is a key or a key, `=` and a value, and the key does not track; the key is then in lower case |
| Canonical.KeptOfPart | src/canonical.rs:335-347 | a query of one part keeps what the part gives |
| Canonical.TrackingExact | src/canonical.rs:322-332 | a key tracks if and only if, in lower case, it begins `utm_` or is one of those listed |
| Canonical.RenderRead | src/canonical.rs:349-357 | a kept pair is read back from its rendering, a bare `=` excepted |
| Canonical.CanonicalComplete | src/canonical.rs:335-360 | two queries have one canonical form if and only if they keep the same multiset of pairs or neither keeps one that shows |
| Canonical.CanonicalExact | src/canonical.rs:335-360 | a text is the canonical form if and only if it is the kept pairs, ordered by key and then value, written with `&` between and `=` only before a value |
| Canonical.CanonicalKeeps | src/canonical.rs:335-360 | the canonical form keeps the query's pairs, in sorted order, but for bare ones |
| Canonical.CanonicalIdempotent | src/canonical.rs:335-360 | a second pass changes nothing if and only if no part is a bare `=` or one pair is kept |
| Canonical.CanonicalTwice | src/canonical.rs:335-360 | a query that a second pass changes |
| Canonical.CanonicalIgnores | src/canonical.rs:322-347 | tracking and empty parts may stand or not, and parts may be swapped |
| Canonical.BarePart | src/canonical.rs:339-346 | the bare pair is kept if and only if a part is `=` |
| AddressAu.MobileNumberExact | src/address_au.rs:2250-2264 | a text is read as a number if and only if its digits write it in one of three spellings |
| AddressAu.AsciiDigitsJoin | src/address_au.rs:2252 | the digits of a text are those of its pieces, in order |
| AddressAu.AsciiDigitsFirst | src/address_au.rs:2252 | a character is kept if and only if it is an ASCII digit |
| AddressAu.OtherSpellings | src/address_au.rs:2245-2264 | every mobile number is also read with no trunk zero and with two, which the documentation does not promise |
| AddressAu.DocumentedExact | src/address_au.rs:2245-2264 | every documented text is read, and a text that is read is documented if and only if it has as many digits as its prefix calls for |
| AddressAu.SpellingsAgree | src/address_au.rs:2245-2264 | the `0`, `+61` and `0061` spellings are read alike with anything between their digits |
| AddressAu.MobileInRange | src/address_au.rs:2261-2264 | every number read lies in the range the register covers |
| AddressAu.RegisterTotal | src/address_au.rs:665-667 | a contiguous register holds every mobile number in exactly one block |
| AddressAu.PartitionPoint | src/address_au.rs:2265 | bisection finds the first block that ends at or after the number |
| AddressAu.MobileBlock | src/address_au.rs:2249-2269 | the lookup is the linear scan, and returns the one block that holds the number |
| AddressAu.NetworkWordIn | src/address_au.rs:571-585 | true if and only if some occurrence stands between non-alphanumerics |
| AddressAu.NetworkOperatorIn | src/address_au.rs:587-598 | the first row whose token is a word of the text and may be read from it |
| AddressAu.NetworkOperatorSplit | src/address_au.rs:603-608 | a handle is read first, ambiguous words included; free text only by a plain word, and then by the first row that reads it |

## Left out

* Fetching, transports, keys, command-line output, reports and entities: input and output only.
* What is decoded from the members read (manifest, resource table, DEX, ELF, certificates, rotation, content digests): those modules are not part of this model. `ApkInflation.Plan` takes as parameters whether the manifest names resources and which path the table resolves to.
* Inflate, deflate, CRC-32 and compact JSON are parameters; only `ApkWriter.ContentsRead` assumes that inflating inverts deflating. SHA-256 and the limitations text are not modelled.
* Error texts: each is a constructor that stands for one message. Which of several defects of a ZIP header is reported first is modelled as the code has it, but stated apart only for reads.
* A 32-bit `usize`: sizes are 64 bits, so the conversions that can only fail on a smaller machine are left out.
* The sorted lists of ABI and scheme names are sets.
* The standard library's sorts are an insertion sort; any stable or unstable sort gives the same list, since the orders are total (`Sorting.SortedUnique`).
* The shift-and-or of the Base64 accumulator is written as multiply and add on cleared bits.
* White space and case of Unicode beyond what `trim` and the ASCII methods do; a text is a sequence of scalar values.
* Object keys of a JSON value need not be distinct in the model, and its nesting limit is not modelled: both only widen what is proved.
* The metadata keys each source takes out before exposing a record, and the two password fields one source adds afterwards, are the callers' business.
* Base16 would only add an easy pair of tables.
* Canonical URLs, domains, coordinates, MAC addresses and white space: they rest on modules that are not part of this model, or are easy.
* The rows of the mobile register, of the operator table and of the tracking parameters' providers: the register is any contiguous table, the operators any table of non-empty tokens.
* `looks_like_company` and the IBAN's institution digits: plain text tests.
* ApkInflation.ReadAll: says nothing of what is done with the bytes between reads.
