# Payment-history query and effective fee policy, in Dafny

This project models two pieces of the payment gateway's back-office logic and
proves properties of them:

- **`QueryPaymentsService`**, the payment-history query. It has three parts.
  - The opaque pagination cursor. `encodeCursor` writes the key
    `(createdAt, id)` of a page's last row as `"<epochMillis>:<id>"`, in
    unpadded base64url (RFC 4648, section 5, with the padding left out as
    section 3.2 allows). `decodeCursor` reads it back and turns every failure
    into "no cursor".
  - The status normalisation. Free text becomes a `PaymentStatus`, or no
    status filter.
  - The `query` orchestration. The page request and the summary filter get
    the same selection, and the response is built from what the storage port
    returns.
- **`FeePolicyPersistenceAdapter.findEffectivePolicy`**, the point-in-time
  fee-policy lookup. Among the partner's policies with
  `effectiveFrom <= at`, it takes the one with the greatest `effectiveFrom`
  and maps it into the domain `FeePolicy`.

Both source files are pure compositions of expressions, so the model is
datatypes, functions and lemmas. The modules are:

- `Wrappers`: `Option`, which stands for Kotlin's nullable types.
- `JavaNumbers`: `Long`, `BigDecimal`, `Long.toString` and `String.toLong`.
- `Base64Url`: the JDK's URL-safe base 64 encoder (without padding) and
  decoder.
- `CursorCodec`: `encodeCursor` and `decodeCursor`.
- `PaymentQuery`: the status normalisation, the request and response shapes,
  the storage port and `query`.
- `FeePolicies`: the repository's selection rule and the row-to-policy
  mapping.

The storage port `PaymentOutPort` is a value that holds its two operations as
total functions. Every lemma about `query` holds for every port.

Instants are `Long` epoch milliseconds.

## Model

| member | source | states |
|---|---|---|
| `JavaNumbers.ParseLong` | modules/application/src/main/kotlin/im/bigs/pg/application/payment/service/QueryPaymentsService.kt:99-100 | `toLong` accepts exactly the optionally signed runs of decimal digits (a '+' and leading zeros included) whose value lies in the `Long` range, and returns that value; an empty string, a lone sign, any other character and an out-of-range value are refused |
| `JavaNumbers.LongToString` | modules/application/src/main/kotlin/im/bigs/pg/application/payment/service/QueryPaymentsService.kt:89 | the string template writes text that `toLong` accepts, with a '-' exactly when the value is negative, never a '+', and no leading zero |
| `JavaNumbers.LongTextRoundTrip` | modules/application/src/main/kotlin/im/bigs/pg/application/payment/service/QueryPaymentsService.kt:89-100 | every `Long`, negative ones included, is read back by `toLong` from the text the string template writes |
| `JavaNumbers.LongTextIsDigitsAndSign` | modules/application/src/main/kotlin/im/bigs/pg/application/payment/service/QueryPaymentsService.kt:89 | the decimal text of a `Long` is non-empty and made of digits, with a '-' only in front of a negative value, so it never holds a ':' |
| `JavaNumbers.ParseLongAcceptsNonCanonicalText` | modules/application/src/main/kotlin/im/bigs/pg/application/payment/service/QueryPaymentsService.kt:99-100 | "+5" reads as 5, "007" as 7, "-0" as 0 and "-12" as -12 |
| `JavaNumbers.ParseLongRefusesMalformedText` | modules/application/src/main/kotlin/im/bigs/pg/application/payment/service/QueryPaymentsService.kt:99-100 | "", "-", "+", " 1", "1 " and "+-1" are refused |
| `JavaNumbers.ParseLongRefusesOverflow` | modules/application/src/main/kotlin/im/bigs/pg/application/payment/service/QueryPaymentsService.kt:99-100 | the text of `Long.MAX_VALUE` with one more digit is refused |
| `Base64Url.Encode` | modules/application/src/main/kotlin/im/bigs/pg/application/payment/service/QueryPaymentsService.kt:90 | the unpadded encoding of n bytes is (4n+2)/3 characters long, all from the URL-safe alphabet |
| `Base64Url.Decode` | modules/application/src/main/kotlin/im/bigs/pg/application/payment/service/QueryPaymentsService.kt:97 | whatever the URL decoder accepts is made of alphabet characters and '=' only and never leaves one character over a multiple of four; unpadded input of n characters gives 3n/4 bytes, rounded down |
| `Base64Url.Rfc4648Vectors` | modules/application/src/main/kotlin/im/bigs/pg/application/payment/service/QueryPaymentsService.kt:90 | the encoder gives the test vectors of section 10 of RFC 4648 without their padding ("Zg", "Zm8", "Zm9v", "Zm9vYg", "Zm9vYmE", "Zm9vYmFy"), and 0xFB 0xFF gives "-_8" in the URL-safe alphabet |
| `Base64Url.Rfc4648PaddedVectorsDecode` | modules/application/src/main/kotlin/im/bigs/pg/application/payment/service/QueryPaymentsService.kt:97 | the decoder reads the padded vectors "Zg==", "Zm8=", "Zm9vYg==" and "Zm9vYmE=" of section 10 of RFC 4648 to their bytes |
| `Base64Url.DecodeEncode` | modules/application/src/main/kotlin/im/bigs/pg/application/payment/service/QueryPaymentsService.kt:90-97 | the URL decoder gives back exactly the bytes the unpadded URL encoder encoded |
| `Base64Url.DecodePaddedEncode` | modules/application/src/main/kotlin/im/bigs/pg/application/payment/service/QueryPaymentsService.kt:97 | the decoder also accepts the encoding with its '=' padding written out, and gives the same bytes |
| `Base64Url.IllegalCharacterRejected` | modules/application/src/main/kotlin/im/bigs/pg/application/payment/service/QueryPaymentsService.kt:97 | one character outside the URL-safe alphabet, other than '=', anywhere in the input makes the decoder fail |
| `Base64Url.DanglingCharacterRejected` | modules/application/src/main/kotlin/im/bigs/pg/application/payment/service/QueryPaymentsService.kt:97 | an input whose length leaves one character over a multiple of four is refused |
| `Base64Url.DecodeEmptyOnlyFromEmpty` | modules/application/src/main/kotlin/im/bigs/pg/application/payment/service/QueryPaymentsService.kt:97 | only the empty input decodes to no bytes |
| `CursorCodec.IsBlank` | modules/application/src/main/kotlin/im/bigs/pg/application/payment/service/QueryPaymentsService.kt:95 | `isNullOrBlank` holds for the empty text, and blank text holds no character of the base64url alphabet, no '=' and no ':' |
| `CursorCodec.AsciiBytes` | modules/application/src/main/kotlin/im/bigs/pg/application/payment/service/QueryPaymentsService.kt:90 | `toByteArray` of ASCII text gives one byte per character, and `String(bytes)` reads the text back unchanged |
| `CursorCodec.BytesToText` | modules/application/src/main/kotlin/im/bigs/pg/application/payment/service/QueryPaymentsService.kt:97 | `String(bytes)` gives one character per byte, each with the byte's code |
| `CursorCodec.BytesToTextOfConcat` | modules/application/src/main/kotlin/im/bigs/pg/application/payment/service/QueryPaymentsService.kt:97 | the text of concatenated bytes is the concatenation of their texts |
| `CursorCodec.Split` | modules/application/src/main/kotlin/im/bigs/pg/application/payment/service/QueryPaymentsService.kt:98 | `split(":")` always yields at least one field, and text without ':' is a single field |
| `CursorCodec.SplitAfterField` | modules/application/src/main/kotlin/im/bigs/pg/application/payment/service/QueryPaymentsService.kt:98 | a field free of ':' that is followed by ':' comes off as the first field, and the rest splits on its own |
| `CursorCodec.SplitSingleFieldOnlyWithoutSeparator` | modules/application/src/main/kotlin/im/bigs/pg/application/payment/service/QueryPaymentsService.kt:98 | the split has fewer than two fields exactly when the text has no ':' |
| `CursorCodec.RawCursor` | modules/application/src/main/kotlin/im/bigs/pg/application/payment/service/QueryPaymentsService.kt:89 | the raw cursor text is ASCII, and splitting it at ':' gives exactly the decimal texts of the instant and the id |
| `CursorCodec.EncodeText` | modules/application/src/main/kotlin/im/bigs/pg/application/payment/service/QueryPaymentsService.kt:90 | the token is URL-safe, has no '=', is empty only for empty text, and the URL decoder gives back the bytes of the raw text |
| `CursorCodec.EncodeCursor` | modules/application/src/main/kotlin/im/bigs/pg/application/payment/service/QueryPaymentsService.kt:87-91 | no token exactly when the instant or the id is absent; a token is non-empty, uses only `A-Z a-z 0-9 - _`, and has no '=' |
| `CursorCodec.DecodeCursor` | modules/application/src/main/kotlin/im/bigs/pg/application/payment/service/QueryPaymentsService.kt:94-105 | decoding is total and never returns half a cursor: the instant is present exactly when the id is |
| `CursorCodec.DecodeEncodedBytes` | modules/application/src/main/kotlin/im/bigs/pg/application/payment/service/QueryPaymentsService.kt:95-104 | the token of any bytes decodes to the first two ':'-separated fields of their text read by `toLong`, or to no cursor when there are fewer than two fields or either one is refused |
| `CursorCodec.SplitRawCursorPrefix` | modules/application/src/main/kotlin/im/bigs/pg/application/payment/service/QueryPaymentsService.kt:98 | "<t>:<id>:" followed by any text splits into the two decimal texts followed by the fields of that text |
| `CursorCodec.CursorRoundTrip` | modules/application/src/main/kotlin/im/bigs/pg/application/payment/service/QueryPaymentsService.kt:87-101 | decoding the token of any `(createdAt, id)` pair of `Long`s, negative values included, gives that pair back |
| `CursorCodec.ExtraFieldsIgnored` | modules/application/src/main/kotlin/im/bigs/pg/application/payment/service/QueryPaymentsService.kt:98-100 | fields after the second are ignored whatever bytes they hold: the token of "<t>:<id>:" followed by any bytes decodes to `(t, id)` |
| `CursorCodec.ThreeFieldExample` | modules/application/src/main/kotlin/im/bigs/pg/application/payment/service/QueryPaymentsService.kt:98-100 | the token of "1:2:3" decodes to `(1, 2)` |
| `CursorCodec.BlankCursorIsNoCursor` | modules/application/src/main/kotlin/im/bigs/pg/application/payment/service/QueryPaymentsService.kt:95 | a null, empty or whitespace-only cursor decodes to no cursor |
| `CursorCodec.BlankTextIsNotBase64` | modules/application/src/main/kotlin/im/bigs/pg/application/payment/service/QueryPaymentsService.kt:95-97 | a non-empty blank cursor would also fail base64 decoding, so the blank check changes no outcome |
| `CursorCodec.IllegalCharacterIsNoCursor` | modules/application/src/main/kotlin/im/bigs/pg/application/payment/service/QueryPaymentsService.kt:96-97 | a token with a character outside the base64url alphabet, other than '=', decodes to no cursor |
| `CursorCodec.DanglingCharacterIsNoCursor` | modules/application/src/main/kotlin/im/bigs/pg/application/payment/service/QueryPaymentsService.kt:96-97 | a token whose last unit is a single character decodes to no cursor |
| `CursorCodec.SingleFieldIsNoCursor` | modules/application/src/main/kotlin/im/bigs/pg/application/payment/service/QueryPaymentsService.kt:98-100 | decoded text without ':' has fewer than two fields and decodes to no cursor |
| `CursorCodec.NonNumericFieldIsNoCursor` | modules/application/src/main/kotlin/im/bigs/pg/application/payment/service/QueryPaymentsService.kt:99-103 | a first or second field that is not an optionally signed run of digits gives no cursor |
| `CursorCodec.PaddedTokenDecodesAlike` | modules/application/src/main/kotlin/im/bigs/pg/application/payment/service/QueryPaymentsService.kt:97 | a client that adds '=' padding to a token gets the same cursor back |
| `PaymentQuery.StatusValueOf` | modules/application/src/main/kotlin/im/bigs/pg/application/payment/service/QueryPaymentsService.kt:37 | `valueOf` returns the constant whose name is exactly the text, and fails when no constant has that name |
| `PaymentQuery.StatusNamesDistinct` | modules/application/src/main/kotlin/im/bigs/pg/application/payment/service/QueryPaymentsService.kt:37 | no two constants share a name, so the exact-name match selects one constant |
| `PaymentQuery.NormalizeStatus` | modules/application/src/main/kotlin/im/bigs/pg/application/payment/service/QueryPaymentsService.kt:37 | the status filter is a constant exactly when the text is that constant's name; absent or unknown text means no status filter; it never fails |
| `PaymentQuery.StatusMatchIsExact` | modules/application/src/main/kotlin/im/bigs/pg/application/payment/service/QueryPaymentsService.kt:37 | a different case or surrounding blanks give no status filter, and the exact name gives the constant |
| `PaymentQuery.PageRequestOf` | modules/application/src/main/kotlin/im/bigs/pg/application/payment/service/QueryPaymentsService.kt:37-53 | the page request carries the filter's partner, date range and limit unchanged, the normalised status, and the decoded cursor, whose two parts are both present or both absent |
| `PaymentQuery.SummaryFilterOf` | modules/application/src/main/kotlin/im/bigs/pg/application/payment/service/QueryPaymentsService.kt:56-63 | the summary filter has the same partner, status, from and to as the page request, and no cursor or limit |
| `PaymentQuery.Query` | modules/application/src/main/kotlin/im/bigs/pg/application/payment/service/QueryPaymentsService.kt:35-83 | the response's items and `hasNext` are the page's; its count and totals are the projection of the summary over the page request's selection; `nextCursor` is absent exactly when the page's `nextCursorCreatedAt` or `nextCursorId` is absent |
| `PaymentQuery.NextCursorResumesAtPageKey` | modules/application/src/main/kotlin/im/bigs/pg/application/payment/service/QueryPaymentsService.kt:40-74 | sending back the response's `nextCursor` makes the next page request start at exactly the key the page reported; with no next cursor, the next request starts from the most recent row |
| `PaymentQuery.SummaryIgnoresPagination` | modules/application/src/main/kotlin/im/bigs/pg/application/payment/service/QueryPaymentsService.kt:56-68 | two filters with the same partner, status and date range get the same summary, whatever their cursor and limit |
| `PaymentQuery.EquivalentStatusesQueryAlike` | modules/application/src/main/kotlin/im/bigs/pg/application/payment/service/QueryPaymentsService.kt:37-63 | two status texts that normalise alike give the same response |
| `PaymentQuery.UnknownStatusMeansNoFilter` | modules/application/src/main/kotlin/im/bigs/pg/application/payment/service/QueryPaymentsService.kt:37-63 | status "NOT_A_REAL_STATUS" gives the same page and summary as no status |
| `PaymentQuery.CorruptCursorMeansFirstPage` | modules/application/src/main/kotlin/im/bigs/pg/application/payment/service/QueryPaymentsService.kt:40-53 | a cursor that decodes to nothing gives the same response as no cursor |
| `FeePolicies.Eligible` | modules/infrastructure/persistence/src/main/kotlin/im/bigs/pg/infra/persistence/partner/adapter/FeePolicyPersistenceAdapter.kt:16 | the `PartnerIdAndEffectiveFromLessThanEqual` condition: the row's partner is the requested one and its `effectiveFrom` is at or before `at`; `FindTop1OnlySeesEligibleRows` shows the lookup looks at nothing else |
| `FeePolicies.FindTop1` | modules/infrastructure/persistence/src/main/kotlin/im/bigs/pg/infra/persistence/partner/adapter/FeePolicyPersistenceAdapter.kt:16 | the selected row is stored, belongs to the partner, has `effectiveFrom <= at` (equality included), and no eligible row has a later `effectiveFrom`; it is absent exactly when no row is eligible |
| `FeePolicies.ToDomain` | modules/infrastructure/persistence/src/main/kotlin/im/bigs/pg/infra/persistence/partner/adapter/FeePolicyPersistenceAdapter.kt:17-24 | the mapping keeps `id`, `partnerId`, `effectiveFrom` (the same instant at UTC), `percentage` and `fixedFee` |
| `FeePolicies.ToDomainInjective` | modules/infrastructure/persistence/src/main/kotlin/im/bigs/pg/infra/persistence/partner/adapter/FeePolicyPersistenceAdapter.kt:17-24 | the mapping loses nothing: rows that map to the same policy are the same row |
| `FeePolicies.FindEffectivePolicy` | modules/infrastructure/persistence/src/main/kotlin/im/bigs/pg/infra/persistence/partner/adapter/FeePolicyPersistenceAdapter.kt:15-25 | a returned policy belongs to the requested partner, is never in the future, is the mapping of a stored eligible row, and has the greatest `effectiveFrom` among eligible rows; absent exactly when no policy of the partner has `effectiveFrom <= at` |
| `FeePolicies.EligibleRowsOfConcat` | modules/infrastructure/persistence/src/main/kotlin/im/bigs/pg/infra/persistence/partner/adapter/FeePolicyPersistenceAdapter.kt:16 | the eligible rows of two concatenated tables are the eligible rows of each, in order |
| `FeePolicies.EligibleRowsEmpty` | modules/infrastructure/persistence/src/main/kotlin/im/bigs/pg/infra/persistence/partner/adapter/FeePolicyPersistenceAdapter.kt:16 | a table with no eligible row keeps nothing after the partner and `effectiveFrom` conditions |
| `FeePolicies.FindTop1OnlySeesEligibleRows` | modules/infrastructure/persistence/src/main/kotlin/im/bigs/pg/infra/persistence/partner/adapter/FeePolicyPersistenceAdapter.kt:16 | the lookup gives the same row on the whole table as on its eligible rows alone |
| `FeePolicies.IrrelevantRowsDoNotMatter` | modules/infrastructure/persistence/src/main/kotlin/im/bigs/pg/infra/persistence/partner/adapter/FeePolicyPersistenceAdapter.kt:16 | inserting policies of other partners, or policies with `effectiveFrom > at`, anywhere in the table does not change the result |
| `FeePolicies.EffectivePolicyUnique` | modules/infrastructure/persistence/src/main/kotlin/im/bigs/pg/infra/persistence/partner/adapter/FeePolicyPersistenceAdapter.kt:16-24 | when `effectiveFrom` is distinct per partner, every eligible row with the greatest `effectiveFrom` is the one returned, so the `Top1` choice is forced |
| `FeePolicies.EffectivePolicyMonotonic` | modules/infrastructure/persistence/src/main/kotlin/im/bigs/pg/infra/persistence/partner/adapter/FeePolicyPersistenceAdapter.kt:16 | at a later instant a policy is still found, and its `effectiveFrom` is no earlier |
| `FeePolicies.PointInTimeExample` | modules/infrastructure/persistence/src/main/kotlin/im/bigs/pg/infra/persistence/partner/adapter/FeePolicyPersistenceAdapter.kt:16-24 | with policies from 2024-01-01 and 2024-06-01, the lookup on 2024-03-15 gives the first, on 2024-07-01 the second, and on 2023-12-01 none |

## Notes

- The code reads the cursor's fields with `toLong`, which accepts a sign, so
  the round trip is proved for every `Long` id.
- The next cursor is built from the page's `nextCursorCreatedAt` and
  `nextCursorId`, which the port supplies. The model does not derive it from
  the last item itself.

## Left out

- The storage side of `PaymentOutPort.findBy` and `summary` is not modelled:
  the `(createdAt DESC, id DESC)` order, the exclusive cursor bound, the
  filtering and the decimal summation. The port is a pair of arbitrary total
  functions, so pagination exclusivity, pagination completeness and summary
  arithmetic are not proved.
- Failures of the storage port are not modelled. Its functions are total here,
  while in the source their exceptions reach the caller unchanged.
- `FeePolicyJpaRepository` is a sequence of rows plus the selection rule. The
  JPA and SQL internals are not part of this model.
- `FeePolicies.FindTop1`: when two eligible rows of one partner share the
  greatest `effectiveFrom`, the database may return either. The model returns
  the earlier one in table order. `EffectivePolicyUnique` covers the case where
  `effectiveFrom` is distinct per partner.
- Time zones: the `LocalDateTime`/`Instant` conversions at UTC are the identity
  on epoch milliseconds.
- `CursorCodec.EncodeCursor` does not model the sub-millisecond truncation of
  `toEpochMilli` or its `ArithmeticException` on overflow. Instants are
  `Long` milliseconds from the start.
- `CursorCodec.DecodeCursor` reads each decoded byte as one character. That is
  exact for ASCII. For bytes of 0x80 and above, Kotlin's UTF-8 decoding
  and the non-ASCII decimal digits that `Character.digit` accepts (for example
  Arabic-Indic digits) are not modelled, so the model refuses some such tokens
  that the JVM would accept.
- `PaymentStatus` is defined in a domain file that is not part of this model.
  The constants used here are `APPROVED`, `FAILED` and `CANCELLED`. The lemmas
  about normalisation depend only on the names being distinct.
- `BigDecimal` amounts and percentages are `(unscaled, scale)` pairs that are
  only copied. The field types of `QueryFilter`, `PaymentQuery`, the page, the
  projection and the fee-policy entity are defined in files that are not part
  of this model; `from` and `to` are epoch milliseconds here.
- `AppConfig.kt` (the system clock bean), `build.gradle.kts` and
  `ApprovalLookupFilter.kt` hold no logic of the core. Spring annotations and
  dependency injection are framework plumbing.
