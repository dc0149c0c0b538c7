# ServiceTalk cookie parsing and concat-map-iterable flattening, in Dafny

This project models two sequential cores of ServiceTalk and proves properties of the models.

**1. `DefaultHttpCookie.parseCookie` and its helpers.** This is the single left-to-right pass that reads a `Set-Cookie`-style header value into an `HttpCookie`. It slices out:
- the name and the value;
- the attributes `path`, `domain`, `expires` and `max-age`;
- the flags `secure` and `httponly`.

The model covers the pass and everything around it:
- The pass is modelled as a recursive scan over a `Scanner(fields, state, begin, i)` record, with every index jump written out. Those jumps are:
  - 2 at an opening quote;
  - 4 at a closing quote;
  - 4 at `%`;
  - 2 at `;`.
- The validators for the cookie-octet grammar of section 4.1.1 of RFC 6265, and the `%x##` escape check.
- The `AV_FIELD_NAMES` lookup, which ignores case.
- The constructor's null checks.
- `equals` and `hashCode`.

Every exception the parser throws is a `CookieError` in a `Result`. That includes the `subSequence` that runs past the end after a jump.

The model is paired with an encoder, `CookieCodec.Serialize`. The main theorem, `CookieCodec.ParseSerialize`, proves that parsing the text of any serializable cookie gives that cookie back.

**2. The concat-map-iterable operator (`flatMapConcatIterable`).** Upstream emits batches of values. Downstream receives them one value at a time: never more than it has requested, in batch order, followed by at most one terminal signal.
- The operator is an immutable `Operator` record. Each entry point is a pure transition function: `request(n)`, `onNext(batch)`, `onComplete`, `onError` and `cancel`.
- The downstream is an oracle, `Consumer`. It decides which deliveries and which terminal callbacks throw.
- Each entry point returns how the call exits: `Returned` or `Threw(e)`.
- The operator's behaviour is pinned to the scenarios of `PublisherConcatMapIterableTest`. The operator's own implementation is not part of this model.
- Proved properties:
  - every call keeps an invariant (`Valid`);
  - the delivered values never exceed the requested demand;
  - what downstream observes only grows;
  - for a downstream that never throws, the delivered values are the concatenation of the accepted batches in arrival order (`Flattened`);
  - each scenario of the test class holds.

Files:
- `wrappers.dfy`: `Option`, `Result`, `Outcome`.
- `ascii.dfy`: ASCII case folding.
- `decimal.dfy`: the part of `Long.parseLong` used for `max-age`.
- `cookie_syntax.dfy`: the validators and the error type.
- `cookie_parser.dfy`: the parse.
- `cookie_codec.dfy`: the encoder and the round-trip proof.
- `cookie_examples.dfy`: concrete headers at the edges of the input.
- `cookie_equality.dfy`: `equals` and `hashCode`.
- `concat_map_iterable.dfy`: the operator.
- `concat_map_iterable_scenarios.dfy`: the test scenarios.

The code disagrees with a natural reading of its design in these places. The model follows the code and the tests:
- **A failure while delivering inside upstream's `onNext` does not terminate the operator.** The failure is thrown back to upstream and kept. Upstream's later `onComplete` or `onError` then reaches downstream as `onError` carrying that failure (test lines 265-283). So the operator cannot already be terminated when that terminal arrives.
- **A trailing `;` is refused only when the scan looks at it.** An opening quote jumps over the character after it, so `a=";` parses with the value `;` (`CookieExamples.OpenQuoteSkipsTrailingSemicolon`). Likewise the character after a `;` is skipped as the expected space, so `a=b;;` is accepted (`CookieExamples.SecondSemicolonSkipped`).
- **Even when validating, the character right after an opening quote is never checked** (`CookieExamples.CharacterAfterOpenQuoteUnchecked`).

"Test lines" above refer to `PublisherConcatMapIterableTest.java`. Source paths in the table are relative to the repository root.

## Model

| member | source | states |
|---|---|---|
| CookieSyntax.ValidateCookieOctetHexValue | servicetalk-http-api/src/main/java/io/servicetalk/http/api/DefaultHttpCookie.java:356-370 | the decimal range test passes exactly the cookie-octets of RFC 6265 (0x21, 0x23-0x2B, 0x2D-0x3A, 0x3C-0x5B, 0x5D-0x7E); controls, space, DQUOTE, comma, semicolon, backslash and DEL are refused with the offending value |
| CookieSyntax.HexToDecimalAsWritten | servicetalk-http-api/src/main/java/io/servicetalk/http/api/DefaultHttpCookie.java:372-375 | the decoder as written returns -1 or a digit value whose lower- or upper-case hex digit is the input character |
| CookieSyntax.HexToDecimal | servicetalk-http-api/src/main/java/io/servicetalk/http/api/DefaultHttpCookie.java:372-375 | the corrected decoder (upper bound 'F' inclusive) returns -1 or a digit value that encodes the input character |
| CookieSyntax.HexToDecimalInvertsHexDigitChar | servicetalk-http-api/src/main/java/io/servicetalk/http/api/DefaultHttpCookie.java:372-375 | the corrected decoder inverts hex-digit encoding for all 16 digits in both cases, and returns -1 exactly for characters that are no hex digit |
| CookieSyntax.HexToDecimalAsWrittenMissesUpperF | servicetalk-http-api/src/main/java/io/servicetalk/http/api/DefaultHttpCookie.java:372-375 | the decoder as written agrees with the corrected one on every character except 'F', which it maps to -1 although 'F' encodes 15 |
| CookieSyntax.ExtractAndValidateCookieHexValueWith | servicetalk-http-api/src/main/java/io/servicetalk/http/api/DefaultHttpCookie.java:341-354 | fewer than three characters after '%' is an invalid hex encoding; an indicator other than 'x'/'X' is refused with that character; the check passes only when both hold |
| CookieSyntax.ExtractAndValidateCookieHexValueAsWritten | servicetalk-http-api/src/main/java/io/servicetalk/http/api/DefaultHttpCookie.java:341-354 | the escape check as written: a well-formed escape whose low digit is not 'F' passes exactly when the octet it encodes is a cookie-octet; with low digit 'F' the octet tested is 16 times the high digit minus one; too short is an invalid encoding and a wrong indicator is refused with that character |
| CookieSyntax.ExtractAndValidateCookieHexValue | servicetalk-http-api/src/main/java/io/servicetalk/http/api/DefaultHttpCookie.java:341-354 | the corrected variant of the escape check (see Findings): a well-formed escape `%x` + decimal digit + hex digit passes exactly when the octet it encodes is a cookie-octet, along with the two error cases above |
| CookieSyntax.EscapeCheckAsWrittenMisjudgesUpperF | servicetalk-http-api/src/main/java/io/servicetalk/http/api/DefaultHttpCookie.java:341-375 | the escape check as written refuses "%x2F" although '/' is a cookie-octet, and lets "%x7F" (DEL) through; the corrected check does the opposite in both cases |
| Decimal.ParseLongToDecimal | servicetalk-http-api/src/main/java/io/servicetalk/http/api/DefaultHttpCookie.java:270-271 | the max-age decoder reads back the decimal text of every non-negative number |
| Decimal.ParseLong | servicetalk-http-api/src/main/java/io/servicetalk/http/api/DefaultHttpCookie.java:270-271 | max-age text is accepted exactly when it is one or more ASCII digits after an optional '+' or '-', and its value is the digits' value, negated after '-'; anything else is a NumberFormatException |
| Decimal.ParseLongToSignedDecimal | servicetalk-http-api/src/main/java/io/servicetalk/http/api/DefaultHttpCookie.java:270-271 | the max-age decoder reads back the decimal text of every integer, negative ones with a '-' |
| Decimal.ParseLongPadded | servicetalk-http-api/src/main/java/io/servicetalk/http/api/DefaultHttpCookie.java:270-271 | leading zeros and an explicit '+' do not change the value read, and '-' negates it |
| Ascii.EqualsIgnoreCaseIff | servicetalk-http-api/src/main/java/io/servicetalk/http/api/DefaultHttpCookie.java:278-282 | the case-insensitive comparison holds exactly when the lengths agree and every pair of characters agrees after ASCII case folding |
| Ascii.EqualsIgnoreCaseFold | servicetalk-http-api/src/main/java/io/servicetalk/http/api/DefaultHttpCookie.java:135-136 | two texts are equal ignoring case exactly when their foldings are equal |
| Ascii.OptionEqualsIgnoreCaseFold | servicetalk-http-api/src/main/java/io/servicetalk/http/api/DefaultHttpCookie.java:136 | two nullable texts compare equal ignoring case exactly when both are null, or both are present with equal foldings |
| CookieParser.LookupIgnoreCaseFinds | servicetalk-http-api/src/main/java/io/servicetalk/http/api/DefaultHttpCookie.java:38-45 | the case-insensitive table lookup returns the state of the first entry whose name matches |
| CookieParser.LookupIgnoreCaseMisses | servicetalk-http-api/src/main/java/io/servicetalk/http/api/DefaultHttpCookie.java:215-220 | the lookup finds nothing exactly when no entry's name matches |
| CookieParser.AvFieldStateMatches | servicetalk-http-api/src/main/java/io/servicetalk/http/api/DefaultHttpCookie.java:41-44 | "path", "domain", "expires" and "max-age", in any case, route to their parse states, and every other attribute name routes nowhere |
| CookieParser.Slice | servicetalk-http-api/src/main/java/io/servicetalk/http/api/DefaultHttpCookie.java:259 | taking `s[begin..end]` succeeds exactly when `end` is within the text, and fails out of bounds otherwise |
| CookieParser.CloseSegment | servicetalk-http-api/src/main/java/io/servicetalk/http/api/DefaultHttpCookie.java:257-285 | closing a segment never changes the name or the wrapped flag, and succeeds in state Unknown only once a name exists (otherwise "cookie value not found") |
| CookieParser.CloseUnknown | servicetalk-http-api/src/main/java/io/servicetalk/http/api/DefaultHttpCookie.java:273-284 | in state Unknown, "secure" or "httponly" in any case sets its flag, and any other attribute text is ignored without error |
| CookieParser.Step | servicetalk-http-api/src/main/java/io/servicetalk/http/api/DefaultHttpCookie.java:203-294 | every successful turn of the loop strictly advances `i` and keeps `begin <= i`; a `%` escape is checked with the digit decoder given, which for `ParseCookie` is `hexToDecimal` as written |
| CookieParser.StepFails | servicetalk-http-api/src/main/java/io/servicetalk/http/api/DefaultHttpCookie.java:205-294 | a turn throws exactly in these cases, each with its own exception: an empty or refused name at the first '='; a second '=' inside a segment; a quote with no value; an escape the check refuses with the given digit decoder (as written for `ParseCookie`); a trailing ';'; a segment the ';' cannot close; an ordinary character that is not a cookie-octet outside expires |
| CookieParser.StepName | servicetalk-http-api/src/main/java/io/servicetalk/http/api/DefaultHttpCookie.java:206-214 | the first '=' after a non-empty, accepted name records the name and enters ParsingValue one past the '=' |
| CookieParser.StepAvName | servicetalk-http-api/src/main/java/io/servicetalk/http/api/DefaultHttpCookie.java:215-220 | an '=' in state Unknown after a known attribute name enters that attribute's state |
| CookieParser.StepOpenQuote | servicetalk-http-api/src/main/java/io/servicetalk/http/api/DefaultHttpCookie.java:236-243 | an opening quote sets wrapped, starts the value after the quote and skips the next character |
| CookieParser.StepCloseQuote | servicetalk-http-api/src/main/java/io/servicetalk/http/api/DefaultHttpCookie.java:229-235 | a closing quote records the value without the quotes, returns to Unknown and jumps over DQUOTE SEMI SP |
| CookieParser.StepSemicolon | servicetalk-http-api/src/main/java/io/servicetalk/http/api/DefaultHttpCookie.java:252-287 | a non-final ';' closes the segment, returns to Unknown and skips the following space |
| CookieParser.StepEscape | servicetalk-http-api/src/main/java/io/servicetalk/http/api/DefaultHttpCookie.java:245-251 | a `%` escape the check accepts, or any `%` when not validating, skips the escape: the index advances by four |
| CookieParser.StepPlain | servicetalk-http-api/src/main/java/io/servicetalk/http/api/DefaultHttpCookie.java:288-293 | an ordinary character that passes validation (or is not validated) only advances `i` |
| CookieParser.Scan | servicetalk-http-api/src/main/java/io/servicetalk/http/api/DefaultHttpCookie.java:202-295 | the loop, with the escape check's digit decoder as given (as written for `ParseCookie`), ends at or past the end of input, keeping the name invariant (the name is the non-empty text before the first '=', accepted when validating); without validation it can fail only with a structural error |
| CookieParser.Advance | servicetalk-http-api/src/main/java/io/servicetalk/http/api/DefaultHttpCookie.java:202-295 | one turn of the loop followed by the rest of it keeps the same name invariant and, without validation, fails only structurally |
| CookieParser.Finish | servicetalk-http-api/src/main/java/io/servicetalk/http/api/DefaultHttpCookie.java:298-329 | the epilogue closes an open segment like a ';' would and never changes the name |
| CookieParser.ParseFields | servicetalk-http-api/src/main/java/io/servicetalk/http/api/DefaultHttpCookie.java:202-329 | the loop and its epilogue: a name found is the non-empty text before the first '=', accepted when validating; without validation only structural errors occur |
| CookieParser.Build | servicetalk-http-api/src/main/java/io/servicetalk/http/api/DefaultHttpCookie.java:61-73 | a cookie is built exactly when both name and value are present; a missing name or value is an error |
| CookieParser.ParseCookieWith | servicetalk-http-api/src/main/java/io/servicetalk/http/api/DefaultHttpCookie.java:189-332 | parseCookie for any escape digit decoder (`ParseCookie` uses `hexToDecimal` as written, `ParseCookieCorrected` the corrected one): a parsed cookie's name is the non-empty text before the header's first '=' and, when validating, an accepted token; without validation no content check fails; text without '=' never parses; a leading '=' is an empty name; empty input has no name |
| CookieCodec.ScanRun | servicetalk-http-api/src/main/java/io/servicetalk/http/api/DefaultHttpCookie.java:288-293 | the scan passes over a run of ordinary, valid characters one at a time and changes nothing but the index |
| CookieCodec.ScanRunRejects | servicetalk-http-api/src/main/java/io/servicetalk/http/api/DefaultHttpCookie.java:289-292 | when validating outside expires, a run of ordinary characters containing a non-cookie-octet makes the parse fail with that octet |
| CookieCodec.AvNameRoutes | servicetalk-http-api/src/main/java/io/servicetalk/http/api/DefaultHttpCookie.java:41-44 | the capitalised attribute names a server writes ("Path", "Domain", "Expires", "Max-Age") route to their states |
| CookieCodec.CloseAvValue | servicetalk-http-api/src/main/java/io/servicetalk/http/api/DefaultHttpCookie.java:257-272 | closing an attribute's value segment sets exactly that attribute's field, max-age decoded from its decimal text |
| CookieCodec.CloseFlag | servicetalk-http-api/src/main/java/io/servicetalk/http/api/DefaultHttpCookie.java:273-284 | closing a "Secure" or "HttpOnly" segment sets exactly that flag |
| CookieCodec.ScanQuotedValue | servicetalk-http-api/src/main/java/io/servicetalk/http/api/DefaultHttpCookie.java:227-244 | a quoted value is recorded without its quotes, with the wrapped flag set, and the scan resumes at the first attribute |
| CookieCodec.ScanAttributes | servicetalk-http-api/src/main/java/io/servicetalk/http/api/DefaultHttpCookie.java:252-329 | a run of "; Name=value" and "; Flag" attributes is applied in order, each setting its own field |
| CookieCodec.ParseSerializeWith | servicetalk-http-api/src/main/java/io/servicetalk/http/api/DefaultHttpCookie.java:189-332 | for any escape digit decoder, parsing the Set-Cookie text of any serializable cookie, with or without validation, gives back exactly that cookie: name, value, wrapped flag, path, domain, expires, max-age (negative included) and both flags |
| CookieCodec.ParseSerialize | servicetalk-http-api/src/main/java/io/servicetalk/http/api/DefaultHttpCookie.java:189-332 | the same round trip through the parser as written and through the corrected one |
| CookieExamples.QuotedValueAtEndIsOutOfBounds | servicetalk-http-api/src/main/java/io/servicetalk/http/api/DefaultHttpCookie.java:229-234 | `a="b"` fails: the closing quote jumps the index past the end and the final slice is out of bounds |
| CookieExamples.OpenQuoteSkipsTrailingSemicolon | servicetalk-http-api/src/main/java/io/servicetalk/http/api/DefaultHttpCookie.java:236-243 | `a=";` parses with the value ";", because the opening quote skips the ';' |
| CookieExamples.SecondSemicolonSkipped | servicetalk-http-api/src/main/java/io/servicetalk/http/api/DefaultHttpCookie.java:286-287 | `a=b;;` parses as the cookie a=b: the second ';' is skipped as the expected space |
| CookieExamples.CharacterAfterOpenQuoteUnchecked | servicetalk-http-api/src/main/java/io/servicetalk/http/api/DefaultHttpCookie.java:236-243 | even when validating, a space right after an opening quote is accepted, while the same space unquoted is refused |
| CookieExamples.UnquotedSpaceRefused | servicetalk-http-api/src/main/java/io/servicetalk/http/api/DefaultHttpCookie.java:289-292 | when validating, a space in an unquoted value is refused as an unexpected hex value 32 |
| CookieExamples.EscapedSlashRefusedAsWritten | servicetalk-http-api/src/main/java/io/servicetalk/http/api/DefaultHttpCookie.java:245-251 | with validation, the parser as written refuses `a=%x2F` with hex value 31 although '/' is a cookie-octet; the corrected parser returns the cookie a with value `%x2F` |
| CookieExamples.EscapedDelAcceptedAsWritten | servicetalk-http-api/src/main/java/io/servicetalk/http/api/DefaultHttpCookie.java:245-251 | with validation, the parser as written returns the cookie a with value `%x7F` although DEL is no cookie-octet; the corrected parser refuses it with hex value 127 |
| CookieEquality.Wrap32 | servicetalk-http-api/src/main/java/io/servicetalk/http/api/DefaultHttpCookie.java:141-149 | Java int arithmetic: the result is a signed 32-bit value congruent to the input, and the input itself when already in range |
| CookieEquality.FoldedHashRespectsIgnoreCase | servicetalk-http-api/src/main/java/io/servicetalk/http/api/DefaultHttpCookie.java:142-144 | hashing the folded text gives texts that are equal ignoring case equal hashes |
| CookieEquality.Equals | servicetalk-http-api/src/main/java/io/servicetalk/http/api/DefaultHttpCookie.java:124-138 | two cookies are equal exactly when their names fold to the same text, their domains are both absent or fold to the same text, and their paths are identical |
| CookieEquality.EqualsIsEquivalence | servicetalk-http-api/src/main/java/io/servicetalk/http/api/DefaultHttpCookie.java:124-138 | equals is reflexive, symmetric and transitive |
| CookieEquality.HashCodeWith | servicetalk-http-api/src/main/java/io/servicetalk/http/api/DefaultHttpCookie.java:140-150 | the hash is a signed 32-bit value congruent modulo 2^32 to the exact polynomial hash 31^k + sum of component * 31^(k-1-j) over name, domain and path as present: reducing at every step equals reducing once |
| CookieEquality.HashCode | servicetalk-http-api/src/main/java/io/servicetalk/http/api/DefaultHttpCookie.java:140-150 | the same for the folded hash of name and domain and the string hash of the path |
| CookieEquality.HashCodeWithConsistent | servicetalk-http-api/src/main/java/io/servicetalk/http/api/DefaultHttpCookie.java:140-150 | equal cookies have equal hash codes, for any case-insensitive hash that respects case-insensitive equality |
| CookieEquality.HashCodeConsistent | servicetalk-http-api/src/main/java/io/servicetalk/http/api/DefaultHttpCookie.java:140-150 | equal cookies have equal hash codes under the folded string hash |
| CookieEquality.CaseFoldedCookieEquals | servicetalk-http-api/src/main/java/io/servicetalk/http/api/DefaultHttpCookie.java:124-150 | folding the case of a cookie's name and domain leaves it equal to the original, with the same hash code |
| CookieEquality.PathIsCaseSensitive | servicetalk-http-api/src/main/java/io/servicetalk/http/api/DefaultHttpCookie.java:137 | cookies whose paths differ only in case are not equal |
| ConcatMapIterable.Init | servicetalk-concurrent-api/src/test/java/io/servicetalk/concurrent/api/PublisherConcatMapIterableTest.java:58-60 | a freshly subscribed operator has nothing requested, received, delivered, deferred, released or cancelled, and satisfies the invariant |
| ConcatMapIterable.DeliverTerminal | servicetalk-concurrent-api/src/test/java/io/servicetalk/concurrent/api/PublisherConcatMapIterableTest.java:285-294 | handing a terminal to downstream terminates the operator without cancelling upstream; downstream observes the terminal exactly when its callback does not throw, and a throwing callback's failure propagates to the caller |
| ConcatMapIterable.Abandon | servicetalk-concurrent-api/src/test/java/io/servicetalk/concurrent/api/PublisherConcatMapIterableTest.java:296-319 | a failed delivery drops the batch and invokes its release handle if values remain; on the upstream path the failure is thrown and kept; on the demand path upstream is cancelled and downstream gets onError while request returns normally |
| ConcatMapIterable.Pull | servicetalk-concurrent-api/src/test/java/io/servicetalk/concurrent/api/PublisherConcatMapIterableTest.java:183-202 | the drain loop never pulls more than demand or the cursor allows, consumes one unit of demand per value, stops only out of demand, out of values, or at a delivery that throws |
| ConcatMapIterable.PullDelivers | servicetalk-concurrent-api/src/test/java/io/servicetalk/concurrent/api/PublisherConcatMapIterableTest.java:183-202 | what downstream observes during the loop is the first values of the cursor, in order, each processed without throwing |
| ConcatMapIterable.PullLeaves | servicetalk-concurrent-api/src/test/java/io/servicetalk/concurrent/api/PublisherConcatMapIterableTest.java:127-137 | the loop leaves the cursor without exactly the values it pulled |
| ConcatMapIterable.DrainValid | servicetalk-concurrent-api/src/test/java/io/servicetalk/concurrent/api/PublisherConcatMapIterableTest.java:123-146 | the drain keeps the invariant: at most one terminal, last; a terminated operator holds no values; pulled plus demand equals requested |
| ConcatMapIterable.DrainClosedForm | servicetalk-concurrent-api/src/test/java/io/servicetalk/concurrent/api/PublisherConcatMapIterableTest.java:123-146 | with a healthy downstream the drain delivers exactly min(demand, cursor length) values in order, and lets a deferred terminal through exactly when the cursor empties |
| ConcatMapIterable.DrainFails | servicetalk-concurrent-api/src/test/java/io/servicetalk/concurrent/api/PublisherConcatMapIterableTest.java:296-319 | when the (m+1)-th delivery throws, the first m values come out and the batch is abandoned with that failure |
| ConcatMapIterable.OnRequest | servicetalk-concurrent-api/src/test/java/io/servicetalk/concurrent/api/PublisherConcatMapIterableTest.java:322-340 | request does nothing once terminated, otherwise adds n to the requested total; it cancels upstream only by terminating, and keeps the invariant |
| ConcatMapIterable.RequestDelivers | servicetalk-concurrent-api/src/test/java/io/servicetalk/concurrent/api/PublisherConcatMapIterableTest.java:127-137 | request(n) with a healthy downstream delivers the next min(demand + n, cursor length) values in cursor order, then a deferred terminal once the cursor is emptied |
| ConcatMapIterable.RequestFails | servicetalk-concurrent-api/src/test/java/io/servicetalk/concurrent/api/PublisherConcatMapIterableTest.java:307-319 | request(n) whose (m+1)-th delivery throws delivers m values, then cancels upstream and hands downstream onError with the failure |
| ConcatMapIterable.OnNext | servicetalk-concurrent-api/src/test/java/io/servicetalk/concurrent/api/PublisherConcatMapIterableTest.java:322-340 | a batch is dropped once terminated or after a thrown failure; onNext never cancels upstream and keeps the invariant |
| ConcatMapIterable.EmitDelivers | servicetalk-concurrent-api/src/test/java/io/servicetalk/concurrent/api/PublisherConcatMapIterableTest.java:99-110 | a batch with a healthy downstream becomes the cursor and its first min(demand, batch length) values come out in order; onNext returns normally |
| ConcatMapIterable.EmitFails | servicetalk-concurrent-api/src/test/java/io/servicetalk/concurrent/api/PublisherConcatMapIterableTest.java:296-305 | a batch whose (m+1)-th delivery throws delivers m values, then the failure is thrown out of onNext and kept, and upstream is not cancelled |
| ConcatMapIterable.OnTerminal | servicetalk-concurrent-api/src/test/java/io/servicetalk/concurrent/api/PublisherConcatMapIterableTest.java:123-146 | a terminal is deferred while values remain in the cursor and delivered at once otherwise (as onError with the thrown failure after onNext has thrown); upstream is never cancelled |
| ConcatMapIterable.OnCancel | servicetalk-concurrent-api/src/test/java/io/servicetalk/concurrent/api/PublisherConcatMapIterableTest.java:205-214 | cancel terminates without delivering anything, cancels upstream unless already terminated, and invokes the release handle exactly when a releasable batch still has values |
| ConcatMapIterable.CancelIdempotent | servicetalk-concurrent-api/src/test/java/io/servicetalk/concurrent/api/PublisherConcatMapIterableTest.java:205-214 | a second cancel changes nothing |
| ConcatMapIterable.Apply | servicetalk-concurrent-api/src/test/java/io/servicetalk/concurrent/api/PublisherConcatMapIterableTest.java:322-340 | every admissible call keeps the invariant, and once terminated every call returns normally and changes nothing |
| ConcatMapIterable.ApplyExtends | servicetalk-concurrent-api/src/test/java/io/servicetalk/concurrent/api/PublisherConcatMapIterableTest.java:183-202 | no call takes back anything downstream has observed |
| ConcatMapIterable.Run | servicetalk-concurrent-api/src/test/java/io/servicetalk/concurrent/api/PublisherConcatMapIterableTest.java:226-242 | over any sequence of calls the invariant holds, what downstream sees only grows, and the values delivered plus the outstanding demand never exceed what was requested |
| ConcatMapIterable.TerminatedAbsorbs | servicetalk-concurrent-api/src/test/java/io/servicetalk/concurrent/api/PublisherConcatMapIterableTest.java:322-340 | after termination every sequence of calls returns normally each time and leaves the operator unchanged |
| ConcatMapIterable.DrainFlattens | servicetalk-concurrent-api/src/test/java/io/servicetalk/concurrent/api/PublisherConcatMapIterableTest.java:183-202 | with a downstream that never throws, a drain keeps the delivered values followed by the cursor equal to all values received |
| ConcatMapIterable.ApplyFlattens | servicetalk-concurrent-api/src/test/java/io/servicetalk/concurrent/api/PublisherConcatMapIterableTest.java:183-202 | every call keeps the flattening order for a downstream that never throws |
| ConcatMapIterable.RunFlattens | servicetalk-concurrent-api/src/test/java/io/servicetalk/concurrent/api/PublisherConcatMapIterableTest.java:183-202 | over any sequence of calls, what downstream receives is the concatenation of the accepted batches in arrival order, minus what is still in the cursor, or a prefix of it after a cancel |
| ConcatMapIterableScenarios.RequestThenBatch | servicetalk-concurrent-api/src/test/java/io/servicetalk/concurrent/api/PublisherConcatMapIterableTest.java:99-106 | request(n) then a batch delivers the batch's first min(demand, length) values, keeps the rest in the cursor, and terminates, releases and cancels nothing |
| ConcatMapIterableScenarios.RequestResumesBatch | servicetalk-concurrent-api/src/test/java/io/servicetalk/concurrent/api/PublisherConcatMapIterableTest.java:187-192 | request(1) while the batch has values delivers exactly the next one |
| ConcatMapIterableScenarios.RequestsAccumulate | servicetalk-concurrent-api/src/test/java/io/servicetalk/concurrent/api/PublisherConcatMapIterableTest.java:230-234 | two requests made while nothing is buffered act as one request of their sum |
| ConcatMapIterableScenarios.DeferredTerminalFollowsLastValue | servicetalk-concurrent-api/src/test/java/io/servicetalk/concurrent/api/PublisherConcatMapIterableTest.java:123-146 | a terminal arriving while a value remains is not delivered; the request that takes the last value delivers it right after that value, and upstream is not cancelled |
| ConcatMapIterableScenarios.TerminalWhenIdle | servicetalk-concurrent-api/src/test/java/io/servicetalk/concurrent/api/PublisherConcatMapIterableTest.java:342-351 | with nothing buffered, a terminal reaches downstream at once and upstream is not cancelled |
| ConcatMapIterableScenarios.TerminalCallbackThrows | servicetalk-concurrent-api/src/test/java/io/servicetalk/concurrent/api/PublisherConcatMapIterableTest.java:244-253 | a throwing onComplete/onError callback's failure propagates out of upstream's terminal call |
| ConcatMapIterableScenarios.CancelReleasesBatch | servicetalk-concurrent-api/src/test/java/io/servicetalk/concurrent/api/PublisherConcatMapIterableTest.java:56-70 | cancel while a releasable batch still has values invokes its release handle, cancels upstream and terminates, leaving what downstream saw unchanged |
| ConcatMapIterableScenarios.OnNextFailureIsThrown | servicetalk-concurrent-api/src/test/java/io/servicetalk/concurrent/api/PublisherConcatMapIterableTest.java:296-305 | a failure while onNext delivers the first value is thrown to upstream; downstream sees no terminal and upstream is not cancelled |
| ConcatMapIterableScenarios.ThrownFailureSurfacesAtTerminal | servicetalk-concurrent-api/src/test/java/io/servicetalk/concurrent/api/PublisherConcatMapIterableTest.java:265-283 | after onNext has thrown, upstream's terminal of either kind reaches downstream as onError with the thrown failure, and upstream's cancel state is unchanged |
| ConcatMapIterableScenarios.NothingAfterTermination | servicetalk-concurrent-api/src/test/java/io/servicetalk/concurrent/api/PublisherConcatMapIterableTest.java:322-340 | once terminated, a further request and a further batch return normally and change nothing, so downstream receives no more items |
| ConcatMapIterableScenarios.RequestFailureCancelsUpstream | servicetalk-concurrent-api/src/test/java/io/servicetalk/concurrent/api/PublisherConcatMapIterableTest.java:307-319 | a batch waits for demand; the request whose delivery throws returns normally, cancels upstream and delivers onError with the failure |

## Left out

- `DefaultHttpHeaders` and `ParseStateCharSequence` (`AV_FIELD_NAMES`) are only a case-insensitive table. The model uses a sequence of (name, state) pairs searched with ASCII case folding.
- `HeaderUtils.validateCookieTokenAndHeaderName` is not part of this model. It is the parameter `isToken`, and a refused name is `InvalidName`.
- `CharSequences.caseInsensitiveHashCode` is not part of this model. `HashCodeWith` takes it as a parameter, and `HashCode` instantiates it with the string hash of the folded text.
- Decimal.ParseLong: does not model the 64-bit range of `Long.parseLong`, because any digit string is accepted; overflow is not modelled.
- Decimal.ParseLong: accepts ASCII digits only; `Long.parseLong` also accepts the other Unicode decimal digits that `Character.digit` knows (Arabic-Indic, fullwidth and so on), which the model refuses as `InvalidMaxAge`.
- `toString`, the getters and the `UnsupportedOperationException` methods of `ParseStateCharSequence` are trivial.
- A non-`HttpCookie` argument to `equals` is not modelled; that branch returns false.
- The domain- and path-matching rules of sections 5.1.3 and 5.1.4 of RFC 6265 are deliberately absent from the code.
- Unicode: a `char` of the model is a Unicode scalar value, while Java's `CharSequence` holds UTF-16 code units. A character outside the Basic Multilingual Plane is one model character but two Java characters (a surrogate pair). When validating, the source refuses such a character as the hex value of its high surrogate, while the model names the whole code point. The index jumps after a quote, '%' and ';' also skip a different amount of text when one lands on such a character. Surrogate pairs are not modelled. Case folding covers ASCII letters only, as in the source.
- ConcatMapIterable: the operator's Java implementation is not part of this model; the transitions are pinned to the test scenarios only.
- ConcatMapIterable.Abandon: invoking the release handle of a batch abandoned after a failed delivery, when values remain, is the model's own rule; no test pins it down.
- ConcatMapIterable.Operator: an upstream terminal issued reentrantly from inside downstream's callback (test lines 270-272) is not modelled; the model delivers the terminal after onNext has thrown.
- ConcatMapIterable.OnRequest: the demand is an unbounded natural; saturation to an unbounded-demand sentinel is not modelled.
- ConcatMapIterable.OnRequest: the counts requested from upstream are not modelled, since no test asserts them.
- The test fixtures (`TestPublisher`, `TestPublisherSubscriber`, `TestSubscription`), the `map`/`whenOnError`/`whenOnComplete` operators the tests use to make downstream throw, `BlockingIterable` timeouts, `AtomicBoolean` and threading are not modelled. Downstream failure is the oracle `Consumer`.
- ConcatMapIterable.RunFlattens: the flattening order is proved for a downstream that never throws while processing values. After a failed delivery the abandoned values are simply not delivered (`Abandon`).

## Findings

| source | as written | input that shows it | evidently intended | confidence | as-written member | corrected member |
|---|---|---|---|---|---|---|
| servicetalk-http-api/src/main/java/io/servicetalk/http/api/DefaultHttpCookie.java:373 | `hexToDecimal` accepts upper-case digits only while `c < 'F'`, so 'F' decodes to -1 | `%x2F` (the cookie-octet '/') is refused as hex value 31; `%x7F` (DEL) decodes to 7 * 16 - 1 = 111 ('o') and passes | 'A' to 'F' inclusive, like 'a' to 'f' | not executed | CookieSyntax.EscapeCheckAsWrittenMisjudgesUpperF | CookieSyntax.HexToDecimalInvertsHexDigitChar |

`CookieParser.ParseCookie` follows the code and checks escapes with the decoder as written. `CookieParser.ParseCookieCorrected` is the same parse with the corrected decoder. `CookieExamples.EscapedSlashRefusedAsWritten` and `CookieExamples.EscapedDelAcceptedAsWritten` show the two parses disagreeing on whole headers. The round trip `CookieCodec.ParseSerialize` holds for both, since a serialized cookie contains no '%'.
