# Verifying the eMRTD identity verifier

The verifier reads a travel document (EF.SOD and data groups), authenticates it against a set of
CSCA certificates, compares the holder's face, and issues a signed receipt (the IVR) holding salted
commitments to the certified fields. Later the holder opens single commitments and the verifier
mints disclosures for relying parties. This project models that program in Dafny and proves what it
is for.

**The MRZ engine.** `EditDistance` proves the two-row distance loop against edit scripts and that the
distance is a metric; `BerTlv` has the TLV reader and its encoder; `CheckDigits`, `LookAlikes` and
`Recovery` the 7-3-1 digit, the ranked search over OCR look-alikes and what it recovers; `Dates` the
year pivot, ages and age bands; `Td3`, `Dg11`, `DocOcr` and `VisualCheck` the page, its printer, the
personal details and the visual cross-reference; `Specimen` reads the ICAO specimen page.

**The trust chain.** `Pki` and `MasterList` model the climb of a CSCA master list to the pinned root,
`PassiveAuth` the Document Signer and the data-group hashes, `ActiveAuth` the chip's signature, and
`Verification` the gates that feed a receipt.

**Commit and prove.** `Base64Url` and `Jose` have the encodings, commitments and signatures, `Wia` the
wallet attestation, `Receipt` the receipt and the derivations. `Server` is the process: `Step` gives
the next state and the reply for each request, and the class `Verifier`, which updates its fields as
the program updates its globals and files, is proved equal to it. `Runs` defines a run as any list of
requests from any client, and `Provenance`, `GenuineChip`, `Published`, `Wording`, `Completeness`,
`Openings` and `Shortfalls` state what holds of all of them. `Witness` and `Reachable` show that none of this is about nothing.

Library code enters as function-valued parameters. `Jose.Primitives.Sound` lists everything that is
assumed of them: hashing and UTF-8 are injective, a digest is not empty and the empty text is, JSON text parses back,
ASCII characters encode as themselves, the own key's signatures verify and fit in 32 bytes each, and
a P-256 point is read back from its uncompressed form. Unforgeability of the own key is in the
definition of `Jose.OwnKeyAccepts`: only what is in the log of signed payloads verifies. Nothing at
all is assumed of other keys, of certificates, CMS parsing or OCR. `Witness.IdealIsSound` exhibits
primitives that meet `Sound`, `Reachable.SomeDisclosureSucceeds` a valid run of four requests that ends
in a successful disclosure, and `Completeness.RunExists` shows that every list of requests has a run.

## Promises that do not hold as they are documented

Each has a lemma with the exact condition; after the semicolon stands one with an input that fails,
where the condition itself does not show it.

- A commitment binds its value only together with the length of the salt, which the client gives:
  `value + salt` is hashed without framing, so what a disclosure carries is the committed concatenation,
  and the committed value exactly with sixteen bytes of salt (`Jose.OpeningFixesValue`,
  `Receipt.OpenedValue`, for tokens `Provenance.DisclosureProvenance`; `Jose.LongerSaltOpensShorterValue`).
- Hence a birth date can be read without the last digit of its day, up to 28 days early, and no other
  way; between the two days the proved age is one year too high (`Openings.AgeTokenReads`,
  `Openings.AgeOverTokenSays`; `Openings.ShortenedIsDisclosed`, `Openings.SeventeenReadAsEighteen`).
- A misread between `6` and `G` does not change the check digit, their values agree mod 10
  (`Recovery.MisreadShows`).
- The year pivot is right for every two-digit year exactly from 2000 to 2099
  (`Dates.PivotWithinCentury`).
- Below the lowest bound, which the client chooses, the age band names the lowest band, and a birth date
  read early across a bound names the band above (`Dates.BandHoldsAge`, for tokens
  `Openings.BandTokenHoldsAge`; a child of five is labelled `18+` in `Dates.BandOfTheTooYoung`).
- The parser certifies birth dates the calendar does not have. None of them proves an age as it was
  certified (`Dates.ReadDateParses`, `Completeness.HonestDisclosure`; `Dates.UnknownMonth`); one whose
  shortened day the calendar has proves the age of that day (`Openings.AgeProvableExactly`;
  `Openings.NoSuchDayReadAsThird`).
- The cross-reference compares the sex but can never flag it (`VisualCheck.FixedFieldsFlagged`).
- The master-list climb follows the first certifier only: it succeeds exactly when the chain of first
  certifiers ends in the pinned root, and never ends exactly when that chain comes back to a certificate
  it has met (`MasterList.ClimbSucceedsExactly`, `MasterList.ClimbNeverEndsExactly`;
  `MasterList.SomeChainIsMissed`, `MasterList.CrossSignedNeverEnds`). Where no certificate has two
  certifiers nothing is missed (`MasterList.ClimbIsComplete`).
- A rotation whose push to the manager fails answers 500 but leaves the new anchors in force under the
  old attested digest (`Published.ConfigureAttests`; `Published.FailedPushLeavesStaleDigest`). The
  digest of the JWKS is republished at boot only when anchors are persisted and both pushes succeed
  (`Published.BootAttests`).
- A field whose certified value is empty is never disclosed as that, with the salt of the receipt
  (`Completeness.HonestDisclosure`; `Shortfalls.EmptyPlaceNeverDisclosed`). What can be disclosed for it is
  exactly a text its salt begins with (`Openings.EmptyFieldOpensExactly`,
  `Openings.EmptyFieldDisclosedAsSalt`; `Shortfalls.EmptyPlaceReadFromSalt`).
- The comment at config.py:69 says the term of a receipt is bounded by the expiry of the document, and
  the tool description at privasys.json:444 that document_valid asserts an unexpired one. The term is
  not, and the assertion is true exactly when the day of expiry has not passed since
  (`Shortfalls.TermIgnoresExpiry`, `Shortfalls.DocumentValidSays`; `Reachable.SomeDisclosureSucceeds`).
- An established ceremony is not always answered with a token: a holder key that is no point of the
  curve and a presence capture the matcher cannot read are not (`Completeness.EstablishedIsAnswered`).
- `verify_disclosure` accepts every unexpired payload of the key
  (`Shortfalls.DisclosureCheckAcceptsEveryKind`), so issued receipts and challenges pass for their whole
  term (`Shortfalls.ReceiptsAndChallengesPass`).

## Model

| member | source | states |
|---|---|---|
| `EditDistance.Levenshtein` | verifier/mrz.py:95-106 | the returned number is the cost of some script of keeps, inserts, deletes and substitutions turning a into b, and no script is cheaper, early returns included |
| `EditDistance.NextRow` | verifier/mrz.py:100-105 | one pass of the inner loop turns the row of distances of a prefix into the row of the prefix one character longer |
| `EditDistance.DistIsLeastCost` | verifier/mrz.py:95-106 | the recurrence the rows fill in is attained by a script and is a lower bound for all scripts |
| `EditDistance.ZeroOnlyOnEqual` | verifier/mrz.py:96-97 | distance zero means equal strings, and conversely |
| `EditDistance.Symmetric` | verifier/mrz.py:95-106 | the distance does not depend on which string is the OCR read |
| `EditDistance.Triangle` | verifier/mrz.py:95-106 | the triangle inequality, for all strings |
| `EditDistance.Bounds` | verifier/mrz.py:98-99 | the distance lies between the difference of the lengths and the longer length |
| `BerTlv.ReadTlv` | verifier/mrz.py:21-40 | the index loop computes the reader that the lemmas below invert, with its MRZError on empty input, its IndexError on a cut header and its clamped slices |
| `BerTlv.ReadUndoesEncoding` | verifier/mrz.py:21-40 | any tag of one or more bytes, short or long length and value, followed by anything, is read back with the rest intact |
| `BerTlv.ReadRecognisesEncoding` | verifier/mrz.py:21-40 | conversely every successful unclamped read, also of the length octet 0x80, took its input apart as one encoded element and the rest |
| `BerTlv.ReadConsumes` | verifier/mrz.py:21-40 | every success consumes at least two bytes, which is why walking a template ends |
| `BerTlv.CutEncoding` | verifier/mrz.py:21-40 | an encoding cut within its value is read with what there is of it, cut within its tag or before its length it is an IndexError, and nothing at all an MRZError |
| `BerTlv.ElementsOfEncoding` | verifier/mrz.py:60-73 | walking the encoding of a list of elements visits exactly these, in order |
| `BerTlv.Unwrap` | verifier/passive_auth.py:179-195 | the index steps that strip an outer tag compute `Unwrapped`, with the IndexError of a lone tag byte |
| `BerTlv.UnwrapAgreesWithRead` | verifier/aa.py:51-65 | on its own tag the unwrapper of DG15 and of EF.SOD returns what the TLV reader returns, and passes everything else through unchanged |
| `Dg11.ParseDg11` | verifier/mrz.py:52-74 | the loop that consumes the template collects exactly the elements the walk visits, an MRZError on the outer tag giving no fields and any later one ending the loop |
| `Dg11.BuiltDg11` | verifier/mrz.py:52-74 | a DG11 built from encoded elements yields what those elements say, in their order |
| `Dg11.LastElementWins` | verifier/mrz.py:62-73 | no other keys appear, and each known field reports the last element with its tag that carries text |
| `Dg11.ReportedWhenPresent` | verifier/mrz.py:62-73 | a field is reported if and only if some element with its tag carries text |
| `Dg11.PlaceOfTwo` | verifier/mrz.py:69-70 | two components of a place, with one filler or two between them, are joined by a comma and a space |
| `Dg11.NumberWithoutFiller` | verifier/mrz.py:71-72 | a personal number keeps its characters without the filler |
| `Dg11.BareDg11` | verifier/mrz.py:60 | elements without the outer template are read all the same |
| `CheckDigits.ReplacingMoves` | verifier/mrz.py:154-168 | replacing character i moves the digit, mod 10, by seven, three or one, as i is 0, 1 or 2 mod 3, times the difference of the two values |
| `CheckDigits.ValueOf` | verifier/mrz.py:157-164 | digits stand for themselves, letters for ten and on, filler for zero |
| `CheckDigits.FillerDigit` | verifier/mrz.py:167-168 | a field of filler has the digit zero: with the two rows above this determines every digit |
| `CheckDigits.SubstitutionShows` | verifier/mrz.py:154-168 | replacing one character changes the check digit exactly when the two values differ mod 10 |
| `CheckDigits.TranspositionShows` | verifier/mrz.py:154-168 | swapping two neighbours changes it exactly when their values differ mod 5 |
| `Specimen.SpecimenIsConsistent` | verifier/mrz.py:171-189 | the specimen page of ICAO Doc 9303 Part 4, character for character, passes the four checks |
| `Specimen.SpecimenGivesKey` | verifier/mrz.py:259-290 | it yields the access key L898902C3, 740812, 120415 |
| `Specimen.SpecimenParses` | verifier/mrz.py:309-328 | it parses to the nine fields it shows |
| `LookAlikes.CountTransitions` | verifier/mrz.py:210-222 | the loop counts the positions where letters and digits change over |
| `LookAlikes.TransitionAfterFiller` | verifier/mrz.py:210-222 | a letter or digit counts one more exactly when the last one before it, however much filler lies between, was of the other kind |
| `LookAlikes.NumberPairs` | verifier/mrz.py:198-199 | the six pairs a document number may confuse, both ways, and no others |
| `LookAlikes.DatePairs` | verifier/mrz.py:200-201 | the eleven letters a date may show for a digit, and no others |
| `LookAlikes.Candidates` | verifier/mrz.py:229-256 | the result is exactly the strings reached by swapping none, one or two confusable positions that match the check digit, each once, ordered by swaps, cost, transitions and text |
| `LookAlikes.RankingIsUnique` | verifier/mrz.py:247-256 | field, check digit and table determine that list completely |
| `LookAlikes.FewerGoFirst` | verifier/mrz.py:232-233 | fewer swaps go first, then cheaper ones, then fewer transitions |
| `LookAlikes.PicksAreDistinct` | verifier/mrz.py:250-256 | different choices of positions give different strings, so removing duplicates never removes anything |
| `Recovery.CandidateMeansLooksLike` | verifier/mrz.py:229-249 | a candidate is a string of the same length, each character the field's own or its look-alike, at most two differing, that matches the check digit |
| `Recovery.CleanReadFirst` | verifier/mrz.py:229-256 | the field as read is the first candidate exactly when it matches its check digit |
| `Recovery.DateReads` | verifier/mrz.py:272-274 | the digit-only filter leaves at most one date, the full digit fold, and leaves it exactly when that needs at most two swaps and matches |
| `Recovery.MisreadShows` | verifier/mrz.py:198-207 | one look-alike misread of any character shows in the check digit, except between 6 and G |
| `Recovery.OneMisreadRecovered` | verifier/mrz.py:229-256 | with one 1/I or 0/O misread the field as read is not returned; what is returned undoes one such swap, and is the true number exactly when that ranks least by transitions and text among the swaps that match |
| `Recovery.FirstRanksBest` | verifier/mrz.py:250-256 | the returned candidate ranks no later than any other |
| `Dates.PivotWithinCentury` | verifier/mrz.py:293-306 | every two-digit birth year lands in the last hundred years if and only if the current year is from 2000 to 2099 |
| `Dates.BirthDateReadBack` | verifier/mrz.py:293-306 | a birth date of the last hundred years, printed with two digits, is read back |
| `Dates.ExpiryReadBack` | verifier/mrz.py:293-306 | an expiry date of this century, printed with two digits, is read back |
| `Dates.AgeCountsAnniversaries` | verifier/receipt.py:255-261 | the age is at least n exactly when the n-th anniversary is not after today |
| `Dates.ParsesExactly` | verifier/receipt.py:255-259 | a text is read as a date exactly when it spells a year of four digits, a month and a day of one or two digits that the calendar has |
| `Dates.BandLabel` | verifier/receipt.py:276-283 | the loop that updates the lower end ends in the label of `BandOf` |
| `Dates.BandLabels` | verifier/receipt.py:276-283 | for the bounds 21, 18 and 0 the age 20 is labelled 18-20 and 21 is labelled 21+ |
| `Dates.CalendarMonths` | verifier/receipt.py:255-258 | the dates that are read are those of the Gregorian calendar, with its leap years |
| `Dates.BandHoldsAge` | verifier/receipt.py:276-283 | the label always names two neighbouring bounds or the open end, and that band holds the age if and only if some bound is at most the age |
| `Dates.BandOfTheTooYoung` | verifier/receipt.py:276-283 | the failing input: age five under the single bound 18 is labelled 18+ |
| `Dates.ReadDateParses` | verifier/mrz.py:293-306 | a date the MRZ parser accepts is read back by the age paths if and only if the calendar has it |
| `Dates.BandIsUnique` | verifier/receipt.py:276-283 | no other band of the bounds holds the same age |
| `Receipt.UsualBands` | verifier/receipt.py:273-289 | without bounds of its own a request is answered with the band of 0-12, 13-15, 16-17, 18-20, 21-24, 25-64 or 65 and over that holds the age |
| `Dates.BandAgreesWithAgeOver` | verifier/receipt.py:264-291 | for every bound b, age_over_b is true exactly when b is at most the lower end of the disclosed band |
| `Td3.PrintedPageIsConsistent` | verifier/mrz.py:171-189 | every page printed with computed check digits, wrapped as DG1, passes all four digit checks |
| `Td3.WrongDigitIsInconsistent` | verifier/mrz.py:171-189 | a printed page on which one of the four check digits is replaced by any other character fails |
| `Td3.ConsistentExactly` | verifier/mrz.py:171-189 | for any DG1: consistent exactly for a page of 88 characters with the right digits at positions 53, 63, 71 and 87 |
| `Td3.BareMrz` | verifier/mrz.py:43-49 | the MRZ is also found without the outer template |
| `Td3.PrintedPageParses` | verifier/mrz.py:309-328 | DG1 of a printed page gives back the document number, nationality and both dates that were printed, dates through the pivot |
| `Td3.PrintedSexParses` | verifier/mrz.py:323-326 | and the sex, with the filler read as unspecified |
| `Td3.PrintedNamesParse` | verifier/mrz.py:313-328 | and the family and given names |
| `Td3.PrintedPageGivesKey` | verifier/mrz.py:259-290 | the access-key extraction gives back the printed number and dates, whatever the first line |
| `Td3.MrzAccessFields` | verifier/mrz.py:259-290 | for any text: MRZError below 88 characters, otherwise a key exactly when the number has a candidate and both dates are recoverable, made of the best candidate and the digit folds |
| `Td3.Line2` | tests/test_mrz.py:35-41 | the printer of line 2 fills all 44 positions |
| `Td3.ReadWrapped` | tests/fixtures.py:81-92 | what the DG1 builder writes, a tag and a BER length in front of any content below 65536 bytes, is read back with nothing left over |
| `DocOcr.AssembledLength` | verifier/doc_ocr.py:61-78 | the assembled text is empty or a page of 72 or 88 characters: a page exactly when two lines have thirty characters and three fillers, and 88 exactly when one of these has more than 38 |
| `DocOcr.NormSnoc` | verifier/doc_ocr.py:46-47 | normalising keeps the MRZ characters, and lower-case letters as upper-case ones |
| `DocOcr.AssembledAlphabet` | verifier/doc_ocr.py:46-78 | whatever was recognised, the page consists of MRZ characters |
| `DocOcr.RebuildsPage` | verifier/doc_ocr.py:61-78 | when two rows stand out, in either order, the first without trailing filler and the second with more digits, the exact 88 characters come back |
| `DocOcr.RecognisedPageIsConsistent` | verifier/mrz.py:131-151 | such a page cross-references with its own chip without a mismatch |
| `DocOcr.RecognisedPageGivesKey` | verifier/mrz.py:259-290 | and a printed page so recognised yields the printed access key |
| `VisualCheck.TooDifferent` | verifier/mrz.py:109-112 | for any least cost d of turning the folded strings into each other, true exactly when d is more than two and 5d more than the longer length plus two |
| `VisualCheck.FoldPairs` | verifier/mrz.py:88-92 | two upper-case characters fold alike exactly when they are equal or one of O/0, I/1, S/5, B/8 and Z/2 |
| `VisualCheck.DiffersIsSymmetric` | verifier/mrz.py:109-112 | the comparison does not depend on its argument order |
| `VisualCheck.LookAlikesNeverFlagged` | verifier/mrz.py:88-112 | two reads that fold alike are never flagged and never get different verdicts |
| `VisualCheck.SwapsNeverFlagged` | verifier/mrz.py:88-112 | any number of look-alike swaps, one after the other, leaves a field unflagged and every verdict as it was |
| `VisualCheck.ShortNeverFlagged` | verifier/mrz.py:109-112 | two fields of at most two characters are never flagged |
| `VisualCheck.ConsistentMeansNoContradiction` | verifier/mrz.py:131-151 | the comparison is made exactly of two full pages; the mismatches are exactly the fields that both pages show, at their positions, and that are far apart by that measure; consistent means there are none |
| `VisualCheck.FixedFieldsFlagged` | verifier/mrz.py:115-128 | the two dates are flagged exactly when their six characters are more than two edits apart; the sex never is |
| `VisualCheck.LookAlikeReadIsConsistent` | verifier/mrz.py:131-151 | a page misread in any number of look-alikes and nothing else is consistent with the chip |
| `MasterList.DepthDecides` | verifier/master_list.py:48-81 | a climb that ends at all ends within one level more than there are certificates |
| `MasterList.ReachedMeansChain` | verifier/master_list.py:48-81 | a climb that returns has a chain of links, each with a verified signature and matching names, from the signer to a self-issued certificate of the pinned hash, in which no certificate of the list repeats |
| `MasterList.ClimbSucceedsExactly` | verifier/master_list.py:48-81 | the climb succeeds if and only if the chain of first certifiers reaches the pinned root through certificates that are not self-issued |
| `MasterList.ClimbNeverEndsExactly` | verifier/master_list.py:48-81 | it never ends, at any depth, if and only if that chain comes back to a certificate it has met |
| `MasterList.SomeChainIsMissed` | verifier/master_list.py:48-81 | the failing input: a renewed root of the same name and key listed first hides the pinned one, and the list is refused at every depth |
| `MasterList.CrossSignedNeverEnds` | verifier/master_list.py:48-81 | the smallest loop: two certificates that certify each other first exhaust every depth |
| `MasterList.ExtractCerts` | verifier/master_list.py:133-150 | the loop with its seen set keeps each certificate once, at its first occurrence, in order |
| `MasterList.ExtractedAreVouched` | verifier/master_list.py:84-152 | anchors are only ever the certificates, each once and in order, of content of the list type that is covered by the digest and the signature, under a signer with such a chain |
| `MasterList.SignedListIsExtracted` | verifier/master_list.py:84-152 | conversely a signed list yields its certificates if and only if its chain of first certifiers reaches the pinned root and it has some |
| `PassiveAuth.VerifyDscChain` | verifier/passive_auth.py:312-342 | the loop returns the first of the candidate anchors, AKI matches first, that verifies the DSC |
| `PassiveAuth.AcceptedIffSomeAnchorVerifies` | verifier/passive_auth.py:312-342 | a DSC is accepted if and only if some anchor with the issuer's subject verifies it, and the returned anchor is one |
| `PassiveAuth.AcceptanceIgnoresOrder` | verifier/passive_auth.py:312-342 | acceptance is the same for any order of the same anchors |
| `PassiveAuth.AkiDecidesWhichAnchor` | verifier/passive_auth.py:324-330 | when an anchor with the named key identifier verifies, one with that identifier is returned |
| `PassiveAuth.CheckMessageDigest` | verifier/passive_auth.py:295-309 | the loop over the attributes accepts exactly when the last messageDigest is the digest of the content and the last contentType is the LDS Security Object |
| `PassiveAuth.VerifiedIsAuthentic` | verifier/passive_auth.py:198-263 | a result is returned if and only if the one signer signed this LDS content, the first anchor to verify its certificate (named key identifiers before others, then in order) issued it, both were valid at signingTime when there is one, and the hashes are the signed ones |
| `ActiveAuth.VerifyEcdsa` | verifier/aa.py:87-104 | the loop over the hashes accepts exactly when the signature verifies under one of the five |
| `ActiveAuth.Verify` | verifier/aa.py:68-84 | keys that cannot be loaded or are not elliptic-curve keys are unsupported, every other signature is valid or not |
| `ActiveAuth.PlainReadsBack` | verifier/aa.py:87-95 | a plain signature of two field-sized halves is read as the pair it was packed from |
| `ActiveAuth.OtherwiseDer` | verifier/aa.py:87-95 | a signature of any other length is taken for DER as it is |
| `Verification.CheckGroups` | verifier/verification.py:74-78 | the loop passes exactly when every presented group has a signed hash and that is its digest |
| `Verification.TamperedGroupRefused` | verifier/passive_auth.py:266-272 | one group without a signed hash, or with another digest, refuses the document |
| `Verification.ResultIsAuthentic` | verifier/verification.py:57-141 | a result exists only for groups whose digests an authentic EF.SOD signs, reports their parsed fields, and only before the day after expiry |
| `Verification.PrintedDocumentAccepted` | verifier/verification.py:57-141 | conversely a printed document whose EF.SOD verifies and covers its groups is accepted, with any page image, if and only if its day of expiry has not passed and its DG11, if it has one, is read or passed over as an MRZError; its printed fields come back |
| `Verification.FieldsAreKnown` | verifier/config.py:54-67 | the parsers can only produce the eleven certified text fields |
| `Verification.OwnPageMatches` | verifier/verification.py:119-128 | a page photographed with its own chip is recorded as matching |
| `Verification.VisualMatchExactly` | verifier/verification.py:119-128 | what is recorded of a page image: nothing below 88 characters, otherwise whether no field is flagged |
| `Base64Url.DecodeUndoesEncode` | verifier/crypto.py:47-53 | decoding undoes encoding for bytes of every length |
| `Base64Url.NoSeparators` | verifier/crypto.py:47-48 | encoded text holds neither a dot nor a tilde |
| `Base64Url.AlphabetInOrder` | verifier/crypto.py:47-48 | the alphabet of RFC 4648, in its order |
| `Base64Url.PaddedDecodes` | verifier/crypto.py:51-53 | padding that completes a text does not change what it decodes to |
| `Base64Url.StandardScans` | verifier/crypto.py:51-53 | the standard alphabet decodes like the URL-safe one |
| `Base64Url.Unfinished` | verifier/crypto.py:51-53 | a single character, or one beyond ASCII, does not decode |
| `Base64Url.EncodeIsInjective` | verifier/crypto.py:47-48 | different bytes have different texts |
| `Jose.SignaturePacking` | verifier/crypto.py:93-103 | packing r and s into 64 bytes and unpacking are inverse, both ways |
| `Jose.CtEq` | verifier/crypto.py:82-88 | the accumulating loop decides equality |
| `Jose.OpeningFixesConcatenation` | verifier/crypto.py:67-79 | a commitment opens exactly with the committed concatenation of value and salt |
| `Jose.OpeningFixesValue` | verifier/crypto.py:63-79 | what opens a commitment is the committed value exactly when the salt has the committed length |
| `Jose.LongerSaltOpensShorterValue` | verifier/crypto.py:67-79 | the failing family: any value that ends in an ASCII character also opens without it, under a salt that begins with it |
| `Jose.HolderBindingIsInjective` | verifier/crypto.py:258-260 | a binding names one holder key |
| `Jose.VerifyUndoesSign` | verifier/crypto.py:235-255 | a signed token verifies and gives back its payload, for every payload and typ |
| `Jose.VerifiedWasSigned` | verifier/crypto.py:246-255 | whatever verifies carries a payload the key signed |
| `Jose.VerifiesExactly` | verifier/crypto.py:246-255 | a token verifies to a payload if and only if its first two segments are ones the key signed for it and the third holds 64 bytes the key accepts for them |
| `Jose.SignedSegments` | verifier/crypto.py:235-243 | a signed token is a header with ES256, the typ and the key id, the payload, and the 64 bytes of the signature over the two |
| `Jose.VerifyUndoesSdJwt` | verifier/receipt.py:229-247 | the token also survives the tilde a disclosure ends in and the split that removes it |
| `Jose.JwkIsInjective` | verifier/crypto.py:208-216 | the canonical JWK determines the point |
| `Jose.JwkDenotesPoint` | verifier/crypto.py:265-279 | and is read back as that point, so normalising it changes nothing |
| `Jose.JwkReadsExactly` | verifier/crypto.py:265-273 | a JWK is read if and only if it is an EC key on P-256 with two coordinates of 32 bytes that make a point |
| `Jose.TryKeys` | verifier/crypto.py:304-310 | the loop skips malformed keys and accepts with the first key that verifies |
| `Jose.VerifiedJwtIsSigned` | verifier/crypto.py:282-311 | accepted claims were signed by a key of the JWKS, the one the header names if it names one |
| `Wia.AcceptedAttests` | verifier/wia.py:114-141 | an accepted attestation is signed under the JWKS, unexpired, and binds the very point of the holder key |
| `Wia.ValidExactly` | verifier/wia.py:70-81 | a JWKS is valid exactly when its keys are a list, not empty, of usable keys each with a key id |
| `Wia.OptionalAttestation` | main.py:393-414 | with enforcement off nothing but a crash in the check is refused |
| `Wia.RequiredMeansAttested` | main.py:393-414 | with enforcement on, the gate opens exactly for an attestation that verifies |
| `Wia.ValidatedJwksDecides` | verifier/wia.py:70-141 | under a validated JWKS an attestation is accepted if and only if it is an ES256 token that attests this holder key: no key is skipped |
| `Published.PersistedJwksIsValidated` | verifier/wia.py:84-99 | in every run the persisted JWKS passed validation |
| `Published.AttestationGate` | main.py:393-414 | at any point of any run the required-attestation gate opens exactly for a token attesting the holder key under the JWKS then in force |
| `Receipt.CommitFields` | verifier/receipt.py:56-76 | the loops fill salts and commitments with exactly one entry for each field, and two for the portrait |
| `Receipt.OpenMeansConcatenation` | verifier/receipt.py:165-174 | opening a field of a receipt succeeds exactly with the committed concatenation |
| `Receipt.OpenedValue` | verifier/receipt.py:165-174 | and then the given value is the committed one exactly when the given salt has sixteen bytes |
| `Receipt.OwnSaltOpens` | verifier/receipt.py:47-76 | every salt handed out opens its own commitment |
| `Receipt.EveryFieldIsProvable` | verifier/receipt.py:294-300 | every field the parsers can produce is disclosed with exactly its value; the presence portrait is refused |
| `Receipt.PortraitCommitmentsIndependent` | verifier/receipt.py:30-44 | neither portrait commitment opens with the salt of the other unless the salts are equal, so a disclosure never opens the presence one |
| `Receipt.CheckHolderExactly` | verifier/receipt.py:124-149 | the holder check passes if and only if the receipt binds the hash of the key, the time is within 300 seconds, and the 64 bytes are its signature over an object with exactly the receipt, the party, the nonce and the time |
| `Receipt.HolderTextFixesAll` | verifier/receipt.py:124-127 | the same signed bytes mean the same receipt, party, nonce and time |
| `Receipt.VerifyIvrExactly` | verifier/receipt.py:108-119 | a receipt is accepted if and only if it verifies, is unexpired, and records a passed authentication and a face match |
| `Server.Verifier.StoreAnchors` | verifier/trust_anchors.py:63-83 | replaces the persisted anchors, then the published digest, as `SetAnchors` says, the first kept when the second fails |
| `Server.Verifier.StoreJwks` | verifier/wia.py:84-99 | the same for a validated JWKS |
| `Server.Verifier.HandleConfigure` | main.py:239-297 | each accepted, half-failed or refused configure call changes the fields as the step function does |
| `Server.Verifier.Boot` | main.py:581-612 | boot resumes on persisted anchors and republishes in the order of the source |
| `Server.Verifier.RepublishAnchors` | verifier/trust_anchors.py:86-101 | publishes the digest of what is persisted, if the manager takes it |
| `Server.Verifier.RepublishJwks` | verifier/wia.py:102-111 | the same for the JWKS |
| `Server.Verifier.HandleChallenge` | main.py:335-344 | mints one challenge and logs it |
| `Server.Verifier.HandleIdentity` | main.py:416-442 | the gates in their order; a receipt is logged only past all of them |
| `Server.Verifier.HandleProve` | main.py:444-485 | the gates in their order; a token is logged only past all of them |
| `Runs.LogOrigin` | verifier/crypto.py:235-243 | every payload the key has signed was the payload of an earlier reply |
| `Runs.AcceptedReceiptWasIssued` | verifier/receipt.py:108-119 | in every run `verify_ivr` accepts only payloads verify-identity issued, and within their term, though typ is never checked |
| `Runs.AcceptedChallengeWasIssued` | main.py:366-383 | in every run the challenge check accepts only challenges aa-challenge issued, within their term |
| `Provenance.AnchorsComeFromAcceptedList` | main.py:239-297 | at every point of every run unfrozen implies persisted anchors, and an earlier request presented an accepted master list that yields exactly these and left them in force |
| `Provenance.FreezeLifts` | main.py:135-139 | the freeze lifts only with an accepted configure or a restart on persisted anchors, and a frozen process mints nothing |
| `Provenance.ConfigureUnfreezes` | main.py:239-297 | a configure call that answers 200 passed every gate: list accepted, JWKS validated and persisted, each pushed if the manager is there; any other call leaves the freeze as it was |
| `Provenance.DerivedValueIsCommitted` | verifier/receipt.py:255-337 | for every salt a derived value is the given text or the stated function of it, which with the given salt makes up the committed concatenation; with sixteen bytes it is the committed value or the function of that, and on the field and presence paths with no other number |
| `Provenance.DerivationClaim` | main.py:487-506 | the claim of a derivation is the key of the voucher gate without its prefix |
| `Provenance.DisclosureProvenance` | main.py:444-485 | every successful token of every run was derived from an earlier receipt, which its evidence names, issued to the same holder key after Passive Authentication and a face match; both requests attested when required; and for every salt its value is as the previous row says of the values that receipt committed |
| `Provenance.DisclosureReachesPinnedRoot` | verifier/passive_auth.py:235-262 | all of that, and the values this token goes back to were read from data groups whose digests an authentic EF.SOD signs, under anchors an accepted master list installed still earlier |
| `Provenance.DisclosureSpeaksForHolder` | verifier/receipt.py:124-229 | all of that, and the token is bound to the holder key, under which the signature in the request verifies over the object of exactly this receipt, party, nonce and time; it cites the document and the time of the receipt |
| `Provenance.VoucherCoversDisclosure` | main.py:444-528 | every token's claim is the key the voucher gate checked; for another party under the requirement that key was authorised, for that party if one was named; reply and evidence name the voucher together or not at all |
| `Wording.VoucherGateExactly` | main.py:508-528 | the gate passes with a jti if and only if a voucher is present, lists the key and names no other party, and with none if and only if none is present and none is required of this party |
| `Wording.TokenSaysExactly` | verifier/receipt.py:179-240 | every token of every run, member by member: issuer, party, claim of the path, value, evidence, term, key, and for a failure false and whether it may be retried |
| `Wording.RetryableExactly` | verifier/receipt.py:327-332 | a failure may be retried exactly when the portrait opened and the face did not match |
| `Wording.ReceiptSaysWhatWasFound` | verifier/receipt.py:47-105 | every receipt of every run, member by member: what was found of the document and the face, the hash of the key, and one commitment for each value; the reply hands out the salts |
| `Wording.TypOfMinted` | verifier/config.py:79-81 | each kind of payload is signed under its own JOSE type |
| `GenuineChip.ChipAuthMeansChipAnswered` | main.py:346-391 | a receipt records chip_auth exactly when DG15 holds a key that can be checked; that key then verified the signature over the challenge, and a challenge with a token was issued earlier in the run |
| `Wording.ChipIsAsked` | main.py:366-373 | a document with a DG15 is never enrolled without a challenge and an answer |
| `Wording.ChallengeTokenExactly` | main.py:374-383 | a challenge token passes if and only if it verifies, is unexpired and names this challenge |
| `Published.ConfigureAttests` | verifier/trust_anchors.py:63-83 | exactly when a configure call leaves the published digest equal to that of the persisted anchors |
| `Published.AttestedBundle` | verifier/trust_anchors.py:34-35 | one attested digest stands for one PEM text only |
| `Published.FailedPushLeavesStaleDigest` | verifier/trust_anchors.py:63-83 | the half-failed rotation: new anchors in force, 500, old digest published |
| `Published.BootAttests` | main.py:588-612 | exactly when a boot leaves anchors and JWKS attested |
| `Published.AlwaysAttested` | main.py:239-297 | in a run where no manager call fails the published digest is always that of the persisted anchors |
| `Published.BootRestoresAttestation` | main.py:588-612 | after any run at all, a boot that reaches the manager restores that agreement |
| `Completeness.RunExists` | main.py:178-236 | every list of requests has a run |
| `Completeness.ReceiptAccepted` | verifier/receipt.py:108-119 | an issued receipt is accepted for its whole term, at every later point of the run |
| `Completeness.HonestDisclosure` | main.py:530-575 | on every path the honest holder of a receipt, opening what it committed, gets the committed value or the stated function of it if and only if the field is not empty, the birth date is a calendar date, or the capture matches |
| `Completeness.HonestFieldDisclosure` | main.py:544-549 | for a field: a success with exactly the committed value if and only if that value is not empty |
| `Completeness.EstablishedIsAnswered` | main.py:461-485 | a request is answered with a token if and only if its ceremony is established, its holder key is a point, and it is not the holder's presence request with an unreadable capture |
| `Shortfalls.DisclosureCheckAcceptsEveryKind` | verifier/receipt.py:243-250 | over all texts, what the relying party's check returns is exactly the unexpired payloads of the key, of any kind |
| `Shortfalls.ReceiptsAndChallengesPass` | verifier/receipt.py:243-250 | in every run issued receipts and challenges pass that check at every later point of their term |
| `Openings.AgeTokenReads` | verifier/receipt.py:255-291 | every successful age token reads a certified birth date as it is, with sixteen bytes of salt, or without the last digit of its day, with seventeen, and never otherwise |
| `Openings.AgeOverTokenSays` | verifier/receipt.py:264-269 | for a calendar date age_over_n is true if and only if the certified age is at least n, or n - 1 and the date was read early with today between the two days |
| `Openings.BandTokenHoldsAge` | verifier/receipt.py:286-291 | the band a successful token names holds the certified age if and only if some requested bound is at most it and the date was not read early across a bound |
| `Openings.AgeProvableExactly` | verifier/receipt.py:165-174 | some opening of a certified birth date reads as a date if and only if the calendar has it, or has it without the last digit of its day |
| `Openings.ShortenedIsDisclosed` | main.py:530-542 | in any run an otherwise honest request that gives the shortened date, and that digit before the salt, succeeds with the age of the shortened date |
| `Openings.SeventeenReadAsEighteen` | verifier/receipt.py:255-291 | the failing input: born on 2008-08-12 and read as 2008-08-1 is over eighteen, and in the band 18+ of the bounds 0 and 18, on 2026-08-05 |
| `Openings.NoSuchDayReadAsThird` | verifier/mrz.py:293-306 | the failing input: the certified 1974-02-31 reads as no date, and shortened as 1974-02-3 |
| `Openings.EmptyFieldOpensExactly` | verifier/receipt.py:165-174 | a field certified as empty opens exactly with a text and a salt that make up its own salt |
| `Openings.EmptyFieldDisclosedAsSalt` | main.py:544-549 | so in every run such a field is disclosed, if at all, as a text that is not empty and its salt begins with |
| `Shortfalls.EmptyPlaceCommitted` | verifier/mrz.py:67-71 | the failing input: a place of birth that is one filler character is certified empty and committed in every receipt issued for it |
| `Shortfalls.EmptyPlaceNeverDisclosed` | main.py:544-549 | with the salt of the receipt the honest holder never gets it disclosed |
| `Shortfalls.EmptyPlaceReadFromSalt` | main.py:544-549 | with the first byte of that salt given as the place, when it is ASCII, and the rest as the salt, it is disclosed as that character |
| `Shortfalls.TermIgnoresExpiry` | verifier/config.py:69-71 | a receipt, issued only up to the expiry of its document, is accepted for its whole term, also when the document has expired since |
| `Shortfalls.DocumentValidSays` | verifier/receipt.py:303-307 | a successful document_valid token says true; its document was unexpired when the receipt was issued, and is at minting exactly when its day of expiry has not passed |
| `Witness.IdealIsSound` | verifier/crypto.py:47-103 | the assumptions on the primitives can all be met together |
| `Reachable.SomeDisclosureSucceeds` | main.py:178-236 | a valid run configures the verifier, enrols a printed document on its last day and ends, one second into the next, in a successful document_valid |

## Left out

- ECDSA, RSA, SHA-256, CMS, ASN.1, X.509, PEM and JSON text: parameters of the model. A signature of
  the own key is deterministic in the model, and its DER form is the pair of numbers.
- Biometrics, PAD and OCR inference: the biometric result and the recognised texts are inputs of a
  request, a real-valued liveness score is given in the ten-thousandths the receipt records.
- HTTP: sockets, header parsing, body draining, the read-only endpoints and `/read-mrz`, whose two
  steps, assembling and extracting the access key, are modelled in `DocOcr` and `Td3`.
- Request members of an unexpected JSON type: requests are typed records, a missing string is empty.
- `SigningKey.load` and the manifest and store files. A restart keeps the key, as the sealed volume does.
- One reading of the clock and of the calendar per request; any values in any order.
- Threads: the server handles one request at a time, so a request is one step.
- Text outside ASCII: `upper` changes a-z, `isdigit` accepts 0-9, digits of other scripts and Unicode
  case folding are not part of this model.
- Dates are read as `strptime` reads `%Y-%m-%d`, without its leading space before the day; the expiry, which the source
  reads as an ISO date, has two-digit months and days by construction, where the two agree.
- `int(exp)` of a string takes digits only, without sign, spaces or underscores.
- Python's recursion limit, which ends the climb of `MasterList`, is the configured depth.
- `AuthenticateAndExtract`, `CrossReference`, `AssembleMrz` and `VerifyJwtJwks` are functions; the loops in
  them that update variables are methods of their own (`CheckGroups`, `Levenshtein`, `TryKeys`), and
  sorting in place is `Sorting.Sort`, a stable sort on values.
- No claim that the JWKS digest stays published: `Published.BootAttests` says exactly when it is
  restored.
- The error texts of replies, and the paths that touch no state: 404, and `POST /trust-anchors`, which
  README.md of the repository lists as a rotation and main.py:209-216 answers with 410.
