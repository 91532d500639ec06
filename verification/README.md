# Verified model of the payment gateway

A Dafny 4.11 model of the parts of the repository that decide what is paid, by
whom and how often, with proofs of what they are for. `dafny verify
dfyconfig.toml` checks everything.

- **Pricing expressions** (`PricingScanner`, `PricingTree`, `PricingLexing`,
  `PricingTrim`, `PricingKeys`, `PricingSearch`, `PricingPlug`, `PricingMeaning`,
  `PricingTermination`, `PricingRewrite`, `PricingTheorem`, `PricingTrace`,
  `PricingValidation`, `PricingAmount`). A pricing expression is text. Its
  innermost `coalesce` is rewritten first, its JSONPath references become placeholders, the rest is
  evaluated, and the coefficient becomes token amounts. The scanner and the two
  rewriting loops are loops over the text; the meaning of an expression is a
  recursive function on trees; the main theorem is that they agree. JSONPath is
  a function from a reference to the values it selects, the arithmetic
  evaluator a function of the tokens that are left.
- **The two-phase gateway** (`Gateway`, `GatewayAnswers`): one request, then
  response attempts repeated until one is answered with 2xx, against facilitators
  that answer anything or throw.
- **Wire formats** (`Base64Url`, `Utf8`, `JsonText`, `KeyOrder`, `CanonicalJson`,
  `ChallengeParams`, `Credential`, `WwwAuthenticate`): what is written is what
  is read, for every string.
- **nginx and Lua generators** (`NginxPath`, `CapturePaths`, `LuaEscape`): what
  nginx and Lua make of the generated text.
- **Challenges and caches** (`ChargeReplay`, `AgedLruCache`): classes, with
  properties of every run of them.
- **Negotiation and settlement windows** (`Networks`, `Negotiation`,
  `FlexWindow`).

Strings are sequences of Unicode scalar values. Where the code does not do what
its documentation says, the model follows the code, and a lemma gives the input
and the exact condition:

- a two-phase rule that authorises nothing may complete without a settlement
  (`Gateway.ZeroAuthorization`, `Gateway.ZeroAuthorizationUnpaid`);
- the scanner counts the parentheses and commas in quoted keys: a call that takes
  its argument from one is read as written exactly when the key is balanced and
  has no comma outside its parentheses (`PricingScanner.KeyIsReadIffKept`; the
  failing keys in `KeysAreCut`, `KeysAreClosed` and `KeysAreOpened`);
- it takes the first opening token for that of a call although it stands in a
  key: a key leaves the calls behind it to be found exactly when it has no such
  token (`PricingScanner.KeyHidesIff`). A call written in a key is taken for one
  (`PricingScanner.CallsInKeys`), and a token that begins no call, as in
  `$['coalesce(x)'] + coalesce(1,2)`, hides the calls behind it
  (`PricingScanner.KeysHide`);
- an object member named `__proto__` does not survive canonical JSON
  (`CanonicalJson.ReadBackIffNoProto`, `CanonicalJson.ProtoIsLost`);
- a text that begins with U+FEFF loses it in bare base64url
  (`Utf8.TextRoundTrip`);
- a location with parameters also takes a matching URL path with one newline
  behind it (`NginxPath.LocationTakesFillings`), and the overlaps of a template
  are reported, whatever it overlaps with, exactly when none of its parameter
  names has a slash (`NginxPath.ReportedIffPlain`);
- a NUL before a digit is read back as another character by Lua
  (`LuaEscape.LuaRoundTrip`);
- without a minimum grace period an accepted flex payment can become unusable
  at once (`FlexWindow.WindowIsSafe`, `FlexWindow.NoGraceIsUnsafe`).

## Model

| member | source | states |
|---|---|---|
| PricingScanner.IndexOfCoalesce | packages/middleware-openapi/src/expr.ts:54-60 | the first occurrence of the call token at or after a position, and none before it |
| PricingScanner.ScanExtractCoalesce | packages/middleware-openapi/src/expr.ts:54-86 | the loop that skips longer identifiers finds what the recursive scan specifies, on any text |
| PricingScanner.ScanCall | packages/middleware-openapi/src/expr.ts:62-86 | the depth and comma counters give the closing parenthesis and the first comma outside inner parentheses |
| PricingScanner.ScanFindInnermost | packages/middleware-openapi/src/expr.ts:104-134 | the search over ever later starting points finds the first call without a call inside |
| PricingScanner.ExtractPlainRefs | packages/middleware-openapi/src/expr.ts:142-150 | every match of the reference pattern in source order |
| PricingScanner.CallIsExtracted | packages/middleware-openapi/src/expr.ts:54-86 | a call is given back as written if and only if the scan keeps its argument (balanced, no comma outside inner parentheses) and its fallback (balanced) |
| PricingScanner.KeyIsReadIffKept | packages/middleware-openapi/src/expr.ts:62-86 | a call that takes its argument from a quoted key is given back as written if and only if the key is balanced and has no comma outside its parentheses |
| PricingScanner.KeysAreCut | packages/middleware-openapi/src/expr.ts:62-86 | a comma outside the parentheses of a key cuts the argument there, for every such key |
| PricingScanner.KeysAreClosed | packages/middleware-openapi/src/expr.ts:62-86 | a surplus closing parenthesis in a key hides the call, for every such key |
| PricingScanner.KeysAreOpened | packages/middleware-openapi/src/expr.ts:62-86 | an unclosed parenthesis in a key hides the call, for every such key |
| PricingScanner.ExtractIsFirst | packages/middleware-openapi/src/expr.ts:54-86 | for every text, what is returned is the call at the first opening token that is not the tail of an identifier, if its argument and fallback are balanced and the argument has no comma outside parentheses, and otherwise nothing |
| PricingScanner.CallIsFoundBehind | packages/middleware-openapi/src/expr.ts:54-86 | a call is found behind a text if and only if that text has no such token |
| PricingScanner.KeyHidesIff | packages/middleware-openapi/src/expr.ts:54-86 | a quoted key leaves the call behind it to be found if and only if no such token is in the key |
| PricingScanner.CallsInKeys | packages/middleware-openapi/src/expr.ts:54-86 | a call written inside a quoted key is extracted as if it were one |
| PricingScanner.KeysHide | packages/middleware-openapi/src/expr.ts:104-134 | a key with a token that is closed before any comma hides every call behind it |
| PricingLexing.CallFound | packages/middleware-openapi/src/expr.ts:62-86 | on printed text the scan gives back the exact argument, fallback and span of the call that stands there |
| PricingLexing.PlainRefsOn | packages/middleware-openapi/src/expr.ts:14-14 | the references extracted from a printed tree are those of the tree, each matched whole even when one is a prefix of another |
| PricingSearch.FindInnermostOnTree | packages/middleware-openapi/src/expr.ts:104-134 | on the printed text of any tree whose keys do not mislead it the search returns nothing exactly when the tree has no coalesce, and otherwise the exact text and span of a coalesce node with none inside, never the tail of a longer identifier |
| PricingSearch.ReadableIffNone | packages/middleware-openapi/src/expr.ts:54-86 | in an expression without calls the keys do not mislead the search if and only if extractCoalesce finds no call in it |
| PricingSearch.InnerCallStands | packages/middleware-openapi/src/expr.ts:104-134 | the span returned is the place of that node in the text |
| PricingTrim.TrimText | packages/middleware-openapi/src/expr.ts:77-78 | trimming the text of an argument is the text of the trimmed tree |
| PricingPlug.PlugText | packages/middleware-openapi/src/evaluator.ts:188-195 | replacing the span of the innermost call in the text is replacing its node in the tree |
| PricingPlug.PlugKeeps | packages/middleware-openapi/src/evaluator.ts:188-195 | the replacement keeps the tree well formed and removes exactly one call |
| PricingPlug.PlugReadable | packages/middleware-openapi/src/evaluator.ts:188-195 | a replacement by the argument or the fallback leaves a tree whose keys do not mislead the next search |
| PricingMeaning.PlugMeaning | packages/middleware-openapi/src/evaluator.ts:157-196 | replacing an innermost call by what it selects does not change the meaning of the whole tree |
| PricingMeaning.TrimMeaning | packages/middleware-openapi/src/expr.ts:77-78 | dropping white space around an argument drops it from its meaning and nothing else |
| PricingMeaning.FillMeaning | packages/middleware-openapi/src/evaluator.ts:198-208 | a tree whose references became placeholders that hold their values means the same |
| PricingTermination.FoundIsCall | packages/middleware-openapi/src/expr.ts:54-86 | whatever is found in any text is a call, opened by its token and closed inside the text |
| PricingTermination.PassDecreases | packages/middleware-openapi/src/evaluator.ts:188-195 | replacing a found call by text with fewer call tokens leaves fewer in the whole, although the text may grow |
| PricingRewrite.PassShrinks | packages/middleware-openapi/src/evaluator.ts:157-196 | on arbitrary text every pass of the loop leaves strictly fewer call tokens, so that it ends |
| PricingRewrite.ResolveExpression | packages/middleware-openapi/src/evaluator.ts:142-226 | the loop with its bindings, placeholder counter and early exits computes the specified outcome |
| PricingRewrite.ResolveArgRefs | packages/middleware-openapi/src/evaluator.ts:160-187 | the walk over the references of an argument, which stops at the first absent or null one |
| PricingRewrite.ReplaceAndEvaluate | packages/middleware-openapi/src/evaluator.ts:198-225 | the last replacement and the evaluation, and the errors they end with |
| PricingTheorem.ResolveMeansTree | packages/middleware-openapi/src/evaluator.ts:142-226 | for every source tree, resolving its text evaluates exactly its recursive meaning: coalesce(a,f) is f when a live reference in a is absent or null and else a; unselected fallbacks need no value; an absent live reference outside every coalesce is an error |
| PricingMeaning.CoalesceOfRef | packages/middleware-openapi/src/evaluator.ts:157-187 | coalesce of one reference means the value it selects, if that is one and not null, and else its fallback; outside every coalesce null is a value |
| PricingTheorem.RewriteOnTree | packages/middleware-openapi/src/evaluator.ts:157-196 | after the rewriting loop the text stands for a tree without calls and with the same meaning, in which every placeholder is bound and occurs at most once |
| PricingTheorem.SubstitutedWhole | packages/middleware-openapi/src/evaluator.ts:166-187 | the first-occurrence replacements, one after the other, each hit the reference they are meant for |
| PricingTheorem.NameInjective | packages/middleware-openapi/src/evaluator.ts:166-187 | placeholders with different numbers are different |
| PricingValidation.BindingsAreTrue | packages/middleware-openapi/src/evaluator.ts:142-226 | on any text, each binding reported with a coefficient is the value its reference selects |
| PricingTrace.BindingsAreComplete | packages/middleware-openapi/src/evaluator.ts:142-226 | for every source tree, the bindings reported with a coefficient are exactly those of the references it is computed from and of the arguments that some coalesce takes, each with the value it selects |
| PricingValidation.ScanSubstituteRefs | packages/middleware-openapi/src/evaluator.ts:71-132 | the loop of the load-time substitution computes its specification |
| PricingValidation.DraftShrinks | packages/middleware-openapi/src/evaluator.ts:83-124 | on arbitrary text every pass of the load-time loop leaves strictly fewer call tokens |
| PricingValidation.EveryReferenceIsChecked | packages/middleware-openapi/src/evaluator.ts:71-132 | the references handed to the load-time check are, with multiplicity, those written anywhere in the expression, and the text left has neither call nor reference and is the expression with every coalesce(a, f) written as ((a) + 0 * (f)) |
| PricingAmount.FixedReadsBack | packages/middleware-openapi/src/evaluator.ts:532-545 | splitting the fixed text at its point, padding the fraction and reading the digits gives the nearest scaled integer |
| PricingAmount.BuildResult | packages/middleware-openapi/src/evaluator.ts:547-570 | an amount for every rate, in order; a negative coefficient throws |
| PricingAmount.AmountBounds | packages/middleware-openapi/src/evaluator.ts:532-570 | the amount lies between c*r - r/(2*10^15) and c*r + r/(2*10^15) + 1, the upper end excluded |
| PricingAmount.ExactCoefficient | packages/middleware-openapi/src/evaluator.ts:532-570 | a coefficient with at most fifteen decimals is charged exactly its price, rounded up |
| PricingAmount.AmountMonotone | packages/middleware-openapi/src/evaluator.ts:532-570 | monotone in coefficient and rate, across both notations of the coefficient's text |
| PricingAmount.EvaluateRules | packages/middleware-openapi/src/evaluator.ts:404-472 | the first matching rule prices the phase; a capture-only rule prices the request with its capture |
| PricingAmount.PhaseExpression | packages/middleware-openapi/src/evaluator.ts:404-472 | the first matching rule prices the capture by its capture expression, and the request by its authorize expression or, if that is absent or empty, by its capture expression; a failed or negative one throws |
| PricingAmount.UnmatchedIff | packages/middleware-openapi/src/evaluator.ts:404-472 | nothing is matched exactly when no rule matches |
| PricingAmount.CaptureWithinAuthorization | packages/middleware-openapi/src/evaluator.ts:404-472 | both phases select the same rule, and a captured coefficient no larger than the authorised one costs no more in any asset |
| PricingAmount.ZeroAmount | packages/middleware-openapi/src/evaluator.ts:532-570 | exactly when an amount is zero |
| Gateway.Handler.HandleRequest | packages/middleware-openapi/src/handler.ts:321-512 | status, settlements, reports and authorizations of a request, for every protocol, price and answer |
| Gateway.Handler.HandleResponse | packages/middleware-openapi/src/handler.ts:514-707 | status, settlements and reports of a response, with the inference that a payment without verify was settled before |
| GatewayAnswers.HandledIff | packages/middleware/src/common.ts:594-761 | a payment reaches a handler if and only if it is an MPP credential for this body or an x402 payment in a spoken version for a matching requirement; else 400 for an unspoken version and 402 otherwise |
| GatewayAnswers.RequestAnswers | packages/middleware-openapi/src/handler.ts:321-512 | with a price, the request is answered as the facilitator answers its verification or settlement: 200, 402 or a throw, with exactly that settlement, report and authorization |
| GatewayAnswers.AdmittedIsPaidOrVerified | packages/middleware-openapi/src/handler.ts:387-440 | a priced request answered 200 has settled exactly its price, or was verified |
| GatewayAnswers.AuthorizedWasVerified | packages/middleware-openapi/src/handler.ts:446-456 | the authorize hook is called only after a verification that succeeded |
| GatewayAnswers.AttemptAnswers | packages/middleware-openapi/src/handler.ts:514-707 | an attempt that has something to settle is answered 200, 500 or with a throw as its facilitator answers, and reported, settled or not |
| GatewayAnswers.CaptureWasVerified | packages/middleware-openapi/src/handler.ts:321-707 | whatever a completed run with an authorised price settles at the response was verified at the request |
| GatewayAnswers.PaymentIsCaptured | apps/sidecar/src/app.ts:22-27 | if any attempt of a run could be settled, the payment is settled, by it or by one before it, and only once |
| GatewayAnswers.PricesAre | packages/middleware-openapi/src/handler.ts:214-233 | a price, in order, for every amount that is not zero, with the token, chain and recipient of its asset |
| Gateway.AtMostOneSettlement | packages/middleware-openapi/src/handler.ts:321-707 | over one request and any retried responses at most one settlement succeeds, and which one it can be |
| Gateway.CompletedRun | packages/middleware-openapi/src/handler.ts:321-707 | exactly what a run that ends in 200 twice has settled |
| Gateway.ExactlyOneSettlement | apps/sidecar/src/app.ts:22-27 | with both prices non-zero a completed run settles exactly once |
| Gateway.ZeroAuthorization | packages/middleware-openapi/src/handler.ts:343-349 | with nothing authorised a completed run is paid if and only if the rule has two phases and the payment can be verified |
| Gateway.ZeroAuthorizationUnpaid | packages/middleware-openapi/src/handler.ts:588-594 | a run that completes unpaid |
| Gateway.SettlementsAreReported | packages/middleware-openapi/src/handler.ts:321-707 | the reports to the capture hook that say settled are, one for each settlement in order, of its phase and with the amounts whose price was settled |
| Gateway.NeverMoreThanAuthorized | packages/middleware-openapi/src/handler.ts:321-707 | no run charges more in any asset than was authorised when the captured coefficient is no larger |
| Base64Url.PaddingRestored | packages/types/src/mpp/encoding.ts:21-24 | the recomputed padding is the one that was stripped, for every byte length |
| Base64Url.EncodedIs | packages/types/src/mpp/encoding.ts:9-19 | the encoding uses only the URL alphabet and no padding |
| Base64Url.EncodedSays | packages/types/src/mpp/encoding.ts:9-19 | as numbers in the alphabet of RFC 4648 the digits are the bytes, filled with zero bits |
| Base64Url.BytesRoundTrip | packages/types/src/mpp/encoding.ts:9-30 | decoding undoes encoding for every byte sequence |
| Base64Url.PaddedReads | packages/types/src/mpp/encoding.ts:21-30 | a padded text reads the same |
| Base64Url.StrangeThrows | packages/types/src/mpp/encoding.ts:21-30 | a text with any other character cannot be decoded |
| Utf8.DecodeEncode | packages/types/src/mpp/encoding.ts:9-30 | the state machine of the UTF-8 decoder undoes the encoder, a leading byte order mark aside |
| Utf8.EncodeBase64URL | packages/types/src/mpp/encoding.ts:9-19 | the loop that fills the binary string loses no byte |
| Utf8.DecodeBase64URL | packages/types/src/mpp/encoding.ts:21-30 | the loop that fills the byte array loses no byte; invalid base64 throws |
| Utf8.TextRoundTrip | packages/types/src/mpp/encoding.ts:9-30 | a text comes back if and only if it does not begin with U+FEFF |
| JsonText.ParsePrint | packages/types/src/mpp/encoding.ts:138-143 | parsing gives back every printed value, at every depth and for every string |
| JsonText.PrintInjective | packages/types/src/mpp/encoding.ts:38-52 | equal texts come from equal values |
| JsonText.PrintIsShortest | packages/types/src/mpp/encoding.ts:38-52 | no text of a value is shorter than the one printed |
| JsonText.SpacedReads | packages/types/src/mpp/encoding.ts:138-143 | white space before a value is no part of it |
| CanonicalJson.SameTextIffSameMeaning | packages/types/src/mpp/encoding.ts:38-52 | two values have equal canonical text if and only if they are equal up to member order at every depth, members named __proto__ aside |
| CanonicalJson.ReadBackIffNoProto | packages/types/src/mpp/encoding.ts:38-52 | the value read back is the one written if and only if no object in it has a member named __proto__ |
| CanonicalJson.ProtoIsLost | packages/types/src/mpp/encoding.ts:44-48 | an input with such a member and its text |
| CanonicalJson.OneCanon | packages/types/src/mpp/encoding.ts:44-48 | a sorted value is the only sorted one with its meaning |
| CanonicalJson.Rebuild | packages/types/src/mpp/encoding.ts:44-48 | the loop assigns the sorted keys one after the other to an object that enumerates its indices by value and its other keys in order of creation |
| CanonicalJson.RebuiltKeeps | packages/types/src/mpp/encoding.ts:44-48 | sorting by code units and assigning in that order gives a list in the order of enumeration with all members but __proto__ |
| KeyOrder.OrdersAgreeIff | packages/types/src/mpp/encoding.ts:32-37 | two keys are enumerated in the order of their UTF-16 code units if and only if neither is an array index, or both are and the shorter is at most the beginning of the longer, or the one that is comes first by units |
| KeyOrder.UnitsStandFor | packages/types/src/mpp/encoding.ts:32-37 | the units of a character are itself or the surrogates that stand for it |
| CanonicalJson.OrderIsByUnitsIff | packages/types/src/mpp/encoding.ts:32-48 | the members come in the order of section 3.2.3 of RFC 8785 if and only if all keys agree pairwise |
| CanonicalJson.IndicesComeByValue | packages/types/src/mpp/encoding.ts:32-37 | two keys that do not agree |
| ChallengeParams.FromParamsOf | packages/types/src/mpp/types.ts:8-18 | the validator gives back the challenge whose parameters it is shown |
| ChallengeParams.ParamsAre | packages/types/src/mpp/types.ts:8-18 | every parameter has its own name, the optional ones where they are |
| Credential.CredentialRoundTrip | packages/types/src/mpp/encoding.ts:125-155 | what is parsed from the header of a serialized credential is its challenge, its source and its payload up to member order, the payload exactly if it has no member named __proto__ |
| Credential.FromJsonIff | packages/types/src/mpp/encoding.ts:138-151 | a JSON value is a credential if and only if it is an object with a challenge whose texts are strings, an object as payload and no source but a string |
| Credential.SchemeIsRead | packages/types/src/mpp/encoding.ts:125-131 | the scheme is read in any case, and no other scheme is |
| Credential.SpacedToken | packages/types/src/mpp/encoding.ts:125-131 | white space around the token is no part of it |
| WwwAuthenticate.UnquoteQuote | packages/types/src/mpp/encoding.ts:54-86 | the two successive replacements undo the quoting of every string, runs of backslashes and quotes included |
| WwwAuthenticate.ParseWWWAuthenticate | packages/types/src/mpp/encoding.ts:93-123 | the two nested matching loops compute the specified reading of any header, with the parameters that no challenge declares |
| WwwAuthenticate.HeaderRoundTrip | packages/types/src/mpp/encoding.ts:58-123 | parsing a formatted header gives back every list of challenges, whatever their texts contain, and no other parameters |
| WwwAuthenticate.WrittenReads | packages/types/src/mpp/encoding.ts:88-123 | values that can stand without quotes are read the same with and without them, for every choice of parameters written bare |
| WwwAuthenticate.SpacedParam | packages/types/src/mpp/encoding.ts:88-123 | white space around the equals sign belongs to no parameter |
| WwwAuthenticate.SpacedSeparator | packages/types/src/mpp/encoding.ts:95-96 | white space around a comma before a parameter belongs to the separator |
| WwwAuthenticate.ValidatedIs | packages/types/src/mpp/encoding.ts:93-123 | a challenge is valid if and only if its required parameters are there, each in its place, and what it does not declare is kept |
| WwwAuthenticate.StopsAtEnd | packages/types/src/mpp/encoding.ts:95-96 | the parameters of a challenge end where the next challenge begins |
| NginxPath.ValidatePath | packages/gateway-nginx/src/path.ts:36-89 | the brace loop accepts exactly the paths made of allowed characters and well-formed parameters |
| NginxPath.TokensOfRender | packages/gateway-nginx/src/path.ts:51-89 | a template has one reading as literals and parameters |
| NginxPath.RenderOfTokens | packages/gateway-nginx/src/path.ts:51-89 | and is what that reading writes |
| NginxPath.ToRegexLocation | packages/gateway-nginx/src/path.ts:91-102 | the loop weaves the escaped segments with the replacement |
| NginxPath.ConvertPath | packages/gateway-nginx/src/path.ts:108-117 | the directive of a valid path; an invalid one throws |
| NginxPath.WeaveIsEmitted | packages/gateway-nginx/src/path.ts:91-102 | splitting by the parameter pattern, escaping and joining gives each token its own regular expression |
| NginxPath.ReadEmitted | packages/gateway-nginx/src/path.ts:28-30 | read by regular expression syntax, the emitted text is one atom a token |
| NginxPath.LocationTakesFillings | packages/gateway-nginx/src/path.ts:28-102 | the location of a valid template takes exactly the URL paths that fill each parameter with a non-empty slash-free text, and with parameters those followed by one newline |
| NginxPath.CouldOverlap | packages/gateway-nginx/src/path.ts:141-162 | the loop over the parts decides the overlap test |
| NginxPath.DetectOverlaps | packages/gateway-nginx/src/path.ts:119-139 | the nested loops list exactly the overlapping pairs in order |
| NginxPath.ReportedIff | packages/gateway-nginx/src/path.ts:119-162 | exactly those pairs of parameterised templates of the list are reported that have the same number of parts and at no place two different literal ones |
| NginxPath.OverlapsAreReported | packages/gateway-nginx/src/path.ts:119-162 | any two valid parameterised templates without a slash in a name whose locations take one URL are reported, whatever the list they are in |
| NginxPath.SlashInName | packages/gateway-nginx/src/path.ts:1-1 | every template with a slash in a parameter name shares a URL with some template without one, and neither order is reported |
| NginxPath.ReportedIffPlain | packages/gateway-nginx/src/path.ts:119-162 | a template is reported with every plain template that shares a URL with it if and only if no parameter of it has a slash in its name |
| CapturePaths.SplitBodyPathSegments | packages/gateway-nginx/src/analyzer.ts:47-88 | the index loop computes the segments of any reference |
| CapturePaths.SplitsRendered | packages/gateway-nginx/src/analyzer.ts:47-88 | splitting inverts rendering for every mix of dot, quoted and numeric steps |
| CapturePaths.EveryRefIsRendered | packages/gateway-nginx/src/analyzer.ts:42-45 | every body reference that the extractor finds is such a rendering |
| CapturePaths.ValidateCapturePathConflicts | packages/gateway-nginx/src/analyzer.ts:104-140 | throws exactly when the segments of one body field are a proper prefix of another's |
| CapturePaths.ExtractResponseRefs | packages/gateway-nginx/src/analyzer.ts:158-184 | the response references in order; an unsupported continuation throws |
| CapturePaths.ExtractedAre | packages/gateway-nginx/src/analyzer.ts:158-184 | they are the references of the expression that point into the response, unless any reference is continued |
| CapturePaths.FindJSONSizeRefs | packages/middleware-openapi/src/expr.ts:157-168 | the references of the calls of jsonSize, match after match |
| CapturePaths.JsonSizeIsFound | packages/middleware-openapi/src/expr.ts:157-168 | a call of jsonSize is matched with any white space inside it, and its reference taken whole |
| CapturePaths.EveryCallIsMeasured | packages/middleware-openapi/src/expr.ts:157-168 | the reference of every call of jsonSize is found unless the call begins inside one found before it |
| CapturePaths.AnalyzeRule | packages/gateway-nginx/src/analyzer.ts:186-240 | the mode, the fields without repetitions in order of first occurrence, and every reason to throw |
| CapturePaths.AcceptedIffNoneInside | packages/gateway-nginx/src/analyzer.ts:104-240 | for every rule: it is accepted if and only if its references are supported, it measures no part of the response, it does not capture the whole body, no body capture is properly inside another, and none comes with a reference taken to be in the body that names no field of it |
| CapturePaths.CapturesAre | packages/gateway-nginx/src/analyzer.ts:193-240 | an accepted rule captures each response reference once in the order of first occurrence, and is two-phase exactly when it has an authorize expression that is not empty |
| CapturePaths.ClassifiedBySteps | packages/gateway-nginx/src/analyzer.ts:24-36 | $.response.headers with a further step is a header, $.response.status the status, everything else the body |
| LuaEscape.EscapeIsEach | packages/gateway-nginx/src/lua/common.ts:12-21 | none of the successive replacements touches the result of an earlier one |
| LuaEscape.LuaRoundTrip | packages/gateway-nginx/src/lua/common.ts:12-21 | a Lua 5.1 string literal of the escaped text reads as the text, under either delimiter, if and only if no NUL is directly followed by a digit |
| ChargeReplay.ReplayStore.Prune | packages/payment-solana/src/charge/replay.ts:15-22 | exactly the entries that expire by now are deleted |
| ChargeReplay.ReplayStore.Add | packages/payment-solana/src/charge/replay.ts:25-28 | pruned, and the id held until its expiry |
| ChargeReplay.ReplayStore.Consume | packages/payment-solana/src/charge/replay.ts:29-34 | succeeds exactly for an id that is held and not expired, which is then gone |
| ChargeReplay.ChargeHandler.GetChallenge | packages/payment-solana/src/charge/server.ts:233-278 | the challenge issued and the id added for one minute |
| ChargeReplay.ChargeHandler.HandleSettle | packages/payment-solana/src/charge/server.ts:280-314 | every outcome up to the consume step and the store after it |
| ChargeReplay.JoinedInjective | packages/payment-solana/src/charge/server.ts:54-65 | the pipe-joined text of pipe-free slots is that of no other slots, pipe-free or not |
| ChargeReplay.PassesNeverOutnumberIssues | packages/payment-solana/src/charge/replay.ts:24-35 | over any interleaving, passes for an id never outnumber its issues, with one in hand while it is held |
| ChargeReplay.PassedWasIssued | packages/payment-solana/src/charge/server.ts:233-314 | a settlement that passes carries the realm, method, intent, request, expiry, digest and opaque value of a challenge issued less than a minute before, no later than that expiry |
| ChargeReplay.PassesIff | packages/payment-solana/src/charge/server.ts:280-314 | a settlement passes if and only if it is a charge, its id genuine, the clock not past its own expiry and the id held and unexpired; a refusal names the first that is not so |
| ChargeReplay.SettleKeeps | packages/payment-solana/src/charge/replay.ts:24-35 | a settlement takes from the store the id it passes with and nothing else that has not expired |
| ChargeReplay.IssuePrunes | packages/payment-solana/src/charge/replay.ts:15-28 | an issue adds its id for a minute, drops exactly what has expired and keeps the rest |
| ChargeReplay.IssuedPasses | packages/payment-solana/src/charge/server.ts:233-314 | over any interleaving, the challenge of a charge passes when it is first settled within its minute and the full second in which that ends |
| ChargeReplay.IssuedPassesIff | packages/payment-solana/src/charge/server.ts:233-314 | and only then, unless the same challenge was issued again |
| AgedLruCache.AgedLRUCache.Get | packages/middleware/src/cache.ts:32-47 | answer and entries after a get |
| AgedLruCache.AgedLRUCache.Put | packages/middleware/src/cache.ts:49-59 | entries after a put |
| AgedLruCache.SizeIsBounded | packages/middleware/src/cache.ts:49-59 | after any run no key is held twice and the size is at most the capacity, or one |
| AgedLruCache.HitIsLatestPut | packages/middleware/src/cache.ts:32-47 | after any run a hit is the value of the key's latest put, younger than the maximal age |
| AgedLruCache.BehindIsSince | packages/middleware/src/cache.ts:32-59 | after any run the keys behind a key are keys touched since it was |
| AgedLruCache.StillHeld | packages/middleware/src/cache.ts:32-59 | after any run a key that was touched and not found too old since is held if fewer than the capacity of other keys were put or hit since |
| AgedLruCache.HeldIsHit | packages/middleware/src/cache.ts:32-59 | and a get of it answers the value of its latest put while that is younger than the maximal age |
| AgedLruCache.AgedIsDropped | packages/middleware/src/cache.ts:32-47 | after a get without a hit the key is not held, and of every other key what was held before |
| Networks.NormalizationSurvives | packages/info/src/index.ts:29-56 | translating a normalised network to its legacy name and normalising it again changes nothing, for every string |
| Networks.NormalizedIs | packages/info/src/index.ts:29-56 | a legacy name is normalised to the network of its row; prefixed and unknown names are left |
| Networks.TranslatedIs | packages/info/src/index.ts:29-56 | a network is translated to the first legacy name of its rows, or left |
| Networks.TablesAreProper | packages/info/src/evm.ts:4-17 | the two tables meet what that needs |
| Negotiation.FindMatching | packages/middleware/src/common.ts:109-140 | the first offer that matches scheme, normalised network and asset, or none does |
| Negotiation.ChallengedTerms | packages/types/src/x402-adapters.ts:77-98 | the body of a version 1 challenge has for every requirement its own amount, payee, timeout, scheme, network and asset, and the resource |
| Negotiation.ShownTerms | packages/types/src/x402-adapters.ts:50-66 | the client is shown the advertised requirement, under version 1 with its network normalised |
| Negotiation.ProcessPaymentRequiredResponse | packages/fetch/src/internal.ts:94-193 | the payer that the chooser picks among all that any handler offers, and the payment built for it |
| Negotiation.ChosenIsSettled | packages/fetch/src/internal.ts:94-193 | whatever payer a chooser picks among those offered, the server settles its payment |
| Negotiation.SameIndex | packages/middleware/src/common.ts:778-807 | for every version 1 payment the version 2 requirement settled is the one at the index matched, so that the branch for a missing one is unreachable |
| Negotiation.PaymentIsSettled | packages/fetch/src/internal.ts:143-181 | a payment built for any advertised requirement is matched by the server to one of the same scheme, normalised network and asset, under every choice of versions |
| Negotiation.SameIsSettled | packages/middleware/src/common.ts:778-807 | if no two advertised requirements have scheme, normalised network and asset in common, the one settled is the very one that the client was shown |
| Negotiation.TermsAreSettled | packages/middleware/src/common.ts:778-807 | and costs and pays what and whom the client was shown |
| Negotiation.FirstOffer | packages/fetch/src/internal.ts:94-193 | the default chooser takes the first payer of the first handler that offers any |
| Negotiation.UnsupportedIff | packages/middleware/src/common.ts:594-761 | exactly a payment in a version that is not spoken is refused as unsupported |
| Negotiation.FirstIsSettled | packages/fetch/src/internal.ts:94-193 | without a chooser of the client's own, the payment is settled whenever any handler offers a payer |
| FlexWindow.ComputeHoldDeadline | packages/payment-solana/src/flex/facilitator/handler.ts:228-249 | the earliest of the deadlines that apply, less the buffer |
| FlexWindow.CheckSlots | packages/payment-solana/src/flex/facilitator/handler.ts:435-486 | accepts exactly the payments that meet every slot condition, and a refusal names a fault that the payment has |
| FlexWindow.WindowIsSafe | packages/payment-solana/src/flex/facilitator/handler.ts:204-249 | for an accepted payment, at every slot until the hold deadline plus the buffer the authorization is unexpired and the key usable under every later revocation, if and only if the key is not active without a grace period; a positive minimum grace suffices |
| FlexWindow.HoldIsLongest | packages/payment-solana/src/flex/facilitator/handler.ts:204-249 | from the hold deadline plus the buffer on, the authorization has expired or the key can have become unusable |
| FlexWindow.HoldEndsBeforeRefund | packages/payment-solana/src/flex/facilitator/handler.ts:435-486 | the hold ends before the escrow can be refunded |
| FlexWindow.AcceptedIff | packages/payment-solana/src/flex/facilitator/handler.ts:435-486 | some hold is accepted if and only if the key is usable and of enough grace, the expiry before a refund and every deadline more than the buffer away |
| FlexWindow.NoGraceIsUnsafe | packages/payment-solana/src/flex/facilitator/handler.ts:204-249 | an accepted payment that a revocation in the same slot makes unusable |

## Left out

- PricingTheorem.ResolveMeansTree: covers expressions whose references follow no identifier character and are followed by a character that cannot continue them, in which no `$` stands outside a reference and no word is that of a placeholder. A reference that ends in `.coalesce` is not followed by a parenthesis: the scanner takes that for a call. In a call each key is balanced by itself, and no key in its argument has a comma outside parentheses (PricingScanner.KeyIsReadIffKept). A key may hold a free opening token if no call stands behind it, or none but its own in the argument of an innermost call, and if what it opens is not a call with a comma (PricingTree.Readable): before a call it hides it (PricingScanner.KeyHidesIff). A fallback with such a key before a later call is left out even where it is never selected.
- PricingRewrite.Read: how the arithmetic evaluator splits its text is modelled as far as placeholders and identifiers go; the arithmetic itself, its functions and its errors are a function of the tokens, and string literals of it are not told apart.
- JSONPath compilation and lookup: a function from a reference to the values it selects.
- PricingAmount.ToFixed: coefficients are real numbers; from 10^21 on they are assumed to be integers, as doubles are, and toFixed is as section 21.1.3.3 of ECMA-262 has it, so that no rounding of the evaluator is modelled.
- Gateway.RequestStep: the order of writes to logs, header copying, and exceptions thrown by the hooks are not modelled; a facilitator that throws counts as not having settled, and an MPP receipt with status failed as settled, as in the code.
- Gateway.Dispatch: payment header parsing is reduced to which protocol it yields; the requirement that matches is treated in Negotiation.
- JsonText.Parse: a number is its text, escaped surrogates are rejected, and an object that was read keeps the order of its text even for keys that are array indices.
- CanonicalJson.Canonicalize: values that JSON.stringify itself drops or converts (undefined, functions, toJSON, big integers) are not inputs.
- Credential.FromJson: parameters and members that are not declared are dropped, where the validator keeps them; a payload that is an array is refused.
- NginxPath.ReadRegex: the part of regular expression syntax that the generator can emit; nginx's own reading of its configuration file and the decoding of the request path are not modelled.
- CapturePaths.AnalyzeRule: the merge of the fields of several rules of one route is not modelled; it does not repeat the conflict check.
- LuaEscape.Lex: an escape that the manual does not define has no value.
- ChargeReplay.Config: HMAC-SHA-256 is an injective function and Number(...) a function that reads decimal numerals, without fractions; base58, the transaction checks after the consume step and the native SOL handler, which repeats these steps, are not modelled.
- ChargeReplay.PassedWasIssued: the realm, the intent and the digest of issued challenges are assumed free of pipes, as the comment in the source says they are; the request and the expiry are proved to be.
- AgedLruCache.AgedLRUCache: an undefined key and a fractional capacity are not modelled.
- Negotiation.Honest: a payment handler offers payers only for requirements it was shown; the server is assumed to resolve the same requirements on both requests.
- Negotiation.Requirements: the extra field and the resource information are not modelled beyond the fields copied.
- FlexWindow.CheckSlots: escrow snapshots, balances, signatures, the estimate of the current slot and the hold manager are not part of this model.
- The receipt functions and the body digest of encoding.ts: the same composition as for credentials.
- The client's choice among MPP challenges, transaction storage, retry backoff, logging, OpenAPI loading, the command line and the Lua runtime files are not modelled.
