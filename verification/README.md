# Smart dynamic hedge: a model in Dafny with proofs

This project models the parts of a paper-trading hedge system whose correctness is not visible
from reading one function, and proves what they promise.

- **Pricing core** (`Reals`, `Lattice`, `Stopping`, `LatticeShape`, `Hedge`): the American option
  lattice over one array that is overwritten layer by layer, finite-difference delta and gamma, and
  the share target. Prices are mathematical reals; the factors the code gets from `exp` are inputs
  of the lattice, with only the facts `u > 1`, `growth > 0` and `disc > 0` assumed.
- **Time** (`Text`, `Calendar`, `Timestamp`, `TimestampLaws`, `MarketHours`, `Store`): the civil
  calendar over all years, with the machine's truncating division; the printer and the parser of
  timestamps; the decision log, which is read newest first by the text of its timestamps; and the
  regular session of the New York market.
- **Feed scanner** (`RssXml`, `RssScanner`, `RssRoundTrip`, `RssTags`, `RssDoctype`): the
  hand-written scanner of RSS and Atom, against a reference printer of both.
- **Hash** (`Bytes`, `Sha256`, `Sha256Bits`, `Sha256Abc`): padding, message schedule and compression
  against FIPS 180-4, its functions bit by bit and its published digest of `abc`.
- **Policy** (`Rounding`, `Policy`, `Backtest`): the gate that fails closed, and the backtest that
  threads a position through it day by day.
- **Configuration and queries** (`JsonValue`, `ConfigMerge`, `Utf8`, `Query`): merging of JSON
  trees, environment overrides, and form-urlencoded query strings with their lossy conversion to
  text.
- **Protocol and control loop** (`McpServer`, `McpClient`, `McpLockstep`, `Autonomous`): both ends
  of the JSON-RPC 2.0 connection, all interleavings of the two processes, and the autonomous loop
  with its stop file, iteration cap and circuit breaker.

Each loop of the source is a method with a loop, or a class whose methods change fields, proved
equal to a specification function or relation; the laws are lemmas about that specification.

## Where a promise does not hold as such

For each of these the model keeps the code, gives an input that fails, and proves exactly when the
promise holds.

- Gamma can be negative where the down-bump is floored at `1e-8` (`Hedge.GammaNonNegativeExactly`,
  `Hedge.FlooredGamma`).
- Text order of timestamps stops being time order past year 9999 and before year -1
  (`TimestampLaws.SortsLikeTimeExactly`). The comment on the printer says that no consumer compares
  timestamps as text; the decision log orders by that text.
- Printing and parsing a timestamp is the identity at microsecond resolution only for the years 0000
  to 9999 (`TimestampLaws.RoundTripExactly`).
- A feed behind a DOCTYPE without an internal subset loses items when a `]` follows a `[` in its
  texts (`RssDoctype.FeedComesBackExactly`, `RssDoctype.LostFeed`).
- A query returns byte strings that are no UTF-8 changed, and may merge their keys
  (`Query.MapComesBackExactly`, `Query.BadKeysCollide`).
- Configuration layers cannot be grouped freely (`ConfigMerge.MergeIsAssociativeExactly`,
  `ConfigMerge.GroupingMatters`), and an override that is no object is ignored
  (`ConfigMerge.SetNestedIsMergeExactly`).
- A `paper_rebalance_preview` can be for zero shares (`Policy.RebalanceMovesExactly`,
  `Policy.ZeroSharePreview`).
- The client never compares ids. A call is handed its own answer exactly when no call before it gave
  up on a read (`McpLockstep.OwnAnswerExactly`, `McpLockstep.GivenUpReadMisleads`).

## Model

| member | source | states |
|---|---|---|
| Lattice.BackwardInduction | cpp/smart_dynamic_hedge.cpp:141-157 | The loop that overwrites one array returns the value of the full binary tree of moves, defined by recursion over remaining steps without array or recombination |
| Lattice.BinomialAmericanPrice | cpp/smart_dynamic_hedge.cpp:117-158 | All branches of pricing: payoff at expiry, closed form when the tree degenerates, failure when the implied probability is outside 0 to 1, tree value otherwise |
| Lattice.PriceByBranch | cpp/smart_dynamic_hedge.cpp:117-158 | The price on the bare numbers of the market: intrinsic value when no time is left; the closed form when the moves coincide; refusal if and only if the growth of a step lies outside its two moves; else the tree under the probability at which the stock grows as it should |
| Lattice.Children | cpp/smart_dynamic_hedge.cpp:143-154 | The tree recombines: an up or down move from a node lands on a node of the next layer, in integer powers of `u` |
| Lattice.NodeValueStep | cpp/smart_dynamic_hedge.cpp:148-156 | Neighbouring entries of one layer determine the entry of the layer before it as the larger of continuation and exercise |
| Stopping.NoRuleBeatsTheLattice | cpp/smart_dynamic_hedge.cpp:141-157 | No exercise rule, path-dependent ones included, has an expected discounted payoff above the lattice value |
| Stopping.GreedyAttainsTheLattice | cpp/smart_dynamic_hedge.cpp:141-157 | Exercising as soon as the payoff is at least the continuation value collects exactly the lattice value |
| Stopping.RuleAtPrefix | cpp/smart_dynamic_hedge.cpp:148-156 | The bound holds at every node of every path not yet exercised, in today's money |
| Stopping.GreedyAtPrefix | cpp/smart_dynamic_hedge.cpp:148-156 | The equality holds at every node of every path not yet exercised |
| LatticeShape.ImpliedProbabilityIsRiskNeutral | cpp/smart_dynamic_hedge.cpp:132-139 | The probability derived from growth reproduces that growth as the expected factor of one step |
| LatticeShape.MonotoneInSpot | cpp/smart_dynamic_hedge.cpp:141-157 | A call never loses and a put never gains when the spot rises, for every tree and step count |
| LatticeShape.NeverSteeperThanStock | cpp/smart_dynamic_hedge.cpp:141-157 | With non-negative dividend yield the value moves by at most the move of the stock |
| LatticeShape.CallNeverSteeperExactly | cpp/smart_dynamic_hedge.cpp:132-157 | For calls that bound holds for all strikes and spots if and only if discounted growth is at most one |
| LatticeShape.ConvexInSpot | cpp/smart_dynamic_hedge.cpp:141-157 | The lattice value is convex in spot |
| LatticeShape.AmericanDominates | cpp/smart_dynamic_hedge.cpp:151-154 | The American lattice is worth at least the lattice without early exercise and at least the payoff |
| LatticeShape.ForwardBound | cpp/smart_dynamic_hedge.cpp:141-157 | Without early exercise the option is worth at least the forward contract |
| LatticeShape.DeepInTheMoney | cpp/smart_dynamic_hedge.cpp:141-157 | In the money on every path, the option without early exercise is exactly the forward |
| LatticeShape.NoEarlyExercise | cpp/smart_dynamic_hedge.cpp:131-156 | With no dividends and non-negative rates the American call equals the European lattice; dually for puts |
| LatticeShape.NoEarlyExerciseOfCallsExactly | cpp/smart_dynamic_hedge.cpp:131-156 | With no dividends this equality holds for every strike and spot if and only if the rate is not negative |
| Hedge.CalculatePriceGreeks | cpp/smart_dynamic_hedge.cpp:168-208 | Price, premium and all five Greeks as reported, pricing by pricing, with the expiry branch and the failure of any of the eight pricings |
| Hedge.SucceedsExactly | cpp/smart_dynamic_hedge.cpp:168-208 | A call succeeds if and only if the option is European or expired, or each of the six markets (as asked, volatility up and down, a day later, rate up and down) implies a probability |
| Hedge.TreeDelta | cpp/smart_dynamic_hedge.cpp:187-190 | The finite-difference delta of the tree lies in 0 to 1 for calls and -1 to 0 for puts, floored bump included |
| Hedge.DeltaWithinOneShare | cpp/smart_dynamic_hedge.cpp:175-190 | Whatever is reported for an American contract, expiry included, obeys these bounds when the dividend yield is not negative |
| Hedge.ReportedGamma | cpp/smart_dynamic_hedge.cpp:187-191 | The gamma reported by a successful call is the second difference of the lattice value |
| Hedge.GammaNonNegativeExactly | cpp/smart_dynamic_hedge.cpp:187-191 | At a given spot, every gamma the core reports from a tree, for any inputs and markets, is non-negative if and only if the down-bump is not floored |
| Hedge.FlooredGamma | cpp/smart_dynamic_hedge.cpp:187-191 | For every spot below that threshold, valid inputs and markets whose call succeeds and reports a negative gamma |
| Hedge.Calculate | cpp/smart_dynamic_hedge.cpp:210-227 | The whole answer, filled in field by field: argument check, failures, Greeks, target, raw and recommended trade, notional, gamma profit |
| Hedge.HedgeIsCovered | cpp/smart_dynamic_hedge.cpp:215-220 | Whenever the core answers, the target does not exceed contracts times multiplier, and the recommended trade ends within the no-trade band of it |
| Hedge.TargetNeutralises | cpp/smart_dynamic_hedge.cpp:182-217 | The target offsets the options: what contracts times multiplier gain in the lattice's own prices between the two bumped spots, the target loses over the same bump |
| Hedge.TargetHasTheRightSign | cpp/smart_dynamic_hedge.cpp:182-217 | Short calls and long puts have a target of at least zero, long calls and short puts of at most zero |
| Hedge.TargetAtExpiry | cpp/smart_dynamic_hedge.cpp:174-180 | At expiry the target is one share against every option in the money, none out of the money, half a share at the strike, and the price is the payoff |
| Hedge.AnswerFromTarget | cpp/smart_dynamic_hedge.cpp:217-226 | Raw trade, hold or full trade, notional and gamma profit of the answer, from its target and the inputs |
| Hedge.PriceIsBestStrategy | cpp/smart_dynamic_hedge.cpp:168-173 | The reported price is what the best path-dependent exercise strategy is worth: none is worth more, and one as much |
| Hedge.OtherGreeks | cpp/smart_dynamic_hedge.cpp:170-207 | Vega, theta, rho and premium of the answer, from the lattice's prices in the bumped markets, with the bump of the volatility and the shortened last day |
| Hedge.PricesExactly | cpp/smart_dynamic_hedge.cpp:124-139 | A market is priced if and only if the option is expired, the moves coincide, or the growth lies between them |
| Hedge.RejectedExactly | cpp/smart_dynamic_hedge.cpp:210-211 | The arguments the core prices at all, in numbers |
| Calendar.DayNumberComesBack | rust/crates/smart-hedge-models/src/time_util.rs:219-240 | For every day number: `civil_from_days` yields a valid date, and `days_from_civil` takes it back |
| Calendar.DateComesBack | rust/crates/smart-hedge-models/src/time_util.rs:219-240 | For every valid date of every year: the day number leads back to the date |
| Calendar.DaysOfNextDate | rust/crates/smart-hedge-models/src/time_util.rs:200-227 | The next day by the rules of leap years and month lengths has the next day number |
| Calendar.CivilOfNextDay | rust/crates/smart-hedge-models/src/time_util.rs:229-240 | Consecutive day numbers are consecutive dates |
| Calendar.EpochIsDayZero | rust/crates/smart-hedge-models/src/time_util.rs:219-240 | Day zero is 1970-01-01, which with the previous row fixes every date |
| Calendar.CivilIsMonotone | rust/crates/smart-hedge-models/src/time_util.rs:229-240 | Later day numbers are later dates |
| Calendar.YearOfEraCorrect | rust/crates/smart-hedge-models/src/time_util.rs:233 | The year-of-era formula picks the year that contains the day |
| Calendar.CivilIsMarch | rust/crates/smart-hedge-models/src/time_util.rs:229-240 | The era arithmetic, with division that truncates toward zero, is the March-based calendar in every era, negative ones included |
| Timestamp.ReadFraction | rust/crates/smart-hedge-models/src/time_util.rs:138-158 | The three loops over the fraction find where its digits end, read at most nine and scale them to nanoseconds |
| Timestamp.ParseFlexible | rust/crates/smart-hedge-models/src/time_util.rs:87-191 | The parser with its moving index computes the specification `Parse`, failures included |
| TimestampLaws.WrittenIsRead | rust/crates/smart-hedge-models/src/time_util.rs:90-191 | Every text of the grammar (date, separator, time, optional fraction of up to nine digits, optional offset) is read as the instant it denotes |
| TimestampLaws.ReadIsWritten | rust/crates/smart-hedge-models/src/time_util.rs:90-191 | Whatever is accepted is a text of the grammar |
| TimestampLaws.ParserMeetsGrammar | rust/crates/smart-hedge-models/src/time_util.rs:87-191 | A text parses to an instant if and only if it writes fields that denote it: as they stand or, without an offset, with a final `Z` |
| TimestampLaws.ZuluMeansZeroOffset | rust/crates/smart-hedge-models/src/time_util.rs:80-91 | `Z`, `+00:00` and no offset mean the same (section 5.6 of RFC 3339, plus the lenient third form) |
| TimestampLaws.AnyOffsetReadsTheSame | rust/crates/smart-hedge-models/src/time_util.rs:160-186 | An instant written on a clock at any valid offset, with any separator, parses to the same value |
| TimestampLaws.RoundTripExactly | rust/crates/smart-hedge-models/src/time_util.rs:69-191 | Parsing the printed text returns the instant floored to microseconds if and only if its year is 0000 to 9999 |
| TimestampLaws.FlooredExactly | rust/crates/smart-hedge-models/src/time_util.rs:69-78 | What the printer keeps: the second, and the nanoseconds down to a multiple of 1000 |
| TimestampLaws.IsoOrderIsTimeOrder | rust/crates/smart-hedge-models/src/time_util.rs:69-78 | From year -1 to 9999, byte order of the printed text is time order at microsecond resolution |
| TimestampLaws.SortsLikeTimeExactly | rust/crates/smart-hedge-models/src/time_util.rs:69-78 | For a range of years that includes 0000 to 9999: text order is time order throughout if and only if the range starts at -1 or later and ends at 9999 |
| TimestampLaws.OrderBreaksAtYear10000 | rust/crates/smart-hedge-models/src/time_util.rs:69-78 | Text of any instant in the years 10000 to 19999 sorts before text of any in 2000 to 9999 |
| TimestampLaws.OrderBreaksAtYearMinus2 | rust/crates/smart-hedge-models/src/time_util.rs:69-78 | Text of any instant in year -1 sorts before text of any in year -2 |
| Store.DecisionStore.Append | rust/crates/smart-hedge-store/src/store.rs:69-86 | The row is added, or a duplicate primary key is reported and nothing changes |
| Store.DecisionStore.Recent | rust/crates/smart-hedge-store/src/store.rs:129-149 | The page holds matching rows only, in descending text order, as many as the limit clamped to 1 to 200 allows, and leaves out nothing that sorts before a row of it; the filter is the symbol in upper case |
| Store.StampsOrderTime | rust/crates/smart-hedge-store/src/store.rs:129-144 | Text order of two printed stamps is the order of the instants they show |
| Store.RecentIsNewestFirstInTime | rust/crates/smart-hedge-store/src/store.rs:129-144 | Such a page is newest first in time, and nothing left out is newer than anything on it |
| Store.PageHoldsExactly | rust/crates/smart-hedge-store/src/store.rs:129-149 | Of every row: never more copies than stored, none with another symbol, and one is left out only by a page of exactly the limit, moved into 1 to 200, of rows no older |
| MarketHours.NthSundayIsSunday | rust/crates/smart-hedge-data/src/market_hours.rs:41-46 | The computed day is a Sunday with exactly `n - 1` Sundays of the month before it |
| MarketHours.DstDates | rust/crates/smart-hedge-data/src/market_hours.rs:13-14 | Summer time starts on a Sunday from March 8 to 14 and ends on a Sunday from November 1 to 7 |
| MarketHours.OneSessionPerTradingDay | rust/crates/smart-hedge-data/src/market_hours.rs:9-34 | On every UTC day Monday to Friday the market is open for exactly one interval of 23400 seconds that starts at 13:30 or 14:30; never on Saturday or Sunday |
| MarketHours.OpenExactly | rust/crates/smart-hedge-data/src/market_hours.rs:9-46 | With weekdays counted from Sunday, January 2 of 2000, and summer time from the Sunday of March 8 to 14 to that of November 1 to 7: open if and only if Monday to Friday, 13:30 to 20:00 within and 14:30 to 21:00 outside |
| MarketHours.StateRepeats | rust/crates/smart-hedge-data/src/market_hours.rs:9-46 | The state repeats every 146097 days |
| RssXml.SkipSpecial | rust/crates/smart-hedge-data/src/rss_xml.rs:27-59 | On every text, a skip ends strictly further on and inside the text |
| RssXml.NextOpenTag | rust/crates/smart-hedge-data/src/rss_xml.rs:72-130 | On every text, an open tag found has a name and ends strictly further on and inside the text |
| RssXml.BlockSpans | rust/crates/smart-hedge-data/src/rss_xml.rs:227-276 | On every text, at most `max_items` blocks, inside the text, left to right and disjoint |
| RssScanner.ScanDeclaration | rust/crates/smart-hedge-data/src/rss_xml.rs:37-57 | Skipping a declaration computes its specification |
| RssScanner.ScanTagEnd | rust/crates/smart-hedge-data/src/rss_xml.rs:101-119 | The loop with its pending quote finds the first `>` outside quoted attribute values |
| RssScanner.ScanNextOpenTag | rust/crates/smart-hedge-data/src/rss_xml.rs:72-130 | The tag search terminates and computes its specification |
| RssScanner.ScanText | rust/crates/smart-hedge-data/src/rss_xml.rs:177-194 | The loop that drops markup and keeps CDATA computes the text specification |
| RssScanner.ScanFirstMatch | rust/crates/smart-hedge-data/src/rss_xml.rs:145-170 | The element search terminates and computes its specification |
| RssScanner.ExtractBlocks | rust/crates/smart-hedge-data/src/rss_xml.rs:227-276 | The block loop returns the entries of exactly the specified spans |
| RssScanner.ExtractFeedEntries | rust/crates/smart-hedge-data/src/rss_xml.rs:219-225 | Items if there are any, Atom entries otherwise |
| RssRoundTrip.DecodeUndoesEscape | rust/crates/smart-hedge-data/src/rss_xml.rs:196-202 | Decoding the five entities with `&amp;` last undoes escaping for every text (section 4.6 of XML 1.0) |
| RssRoundTrip.TextComesBack | rust/crates/smart-hedge-data/src/rss_xml.rs:177-202 | Escaped text decoded as element text comes back unchanged |
| RssRoundTrip.CdataIsRead | rust/crates/smart-hedge-data/src/rss_xml.rs:177-194 | Verbatim text is read up to its first `]]>` and the rest as text again; without one it comes back as it is |
| RssRoundTrip.BodyIsRead | rust/crates/smart-hedge-data/src/rss_xml.rs:145-170 | Title, description or summary, and date under any of its three names, are read back from a printed post, whatever the texts say |
| RssRoundTrip.PostIsOneBlock | rust/crates/smart-hedge-data/src/rss_xml.rs:227-276 | The scanner takes a printed item or Atom entry, anywhere in a document, as one block of its kind |
| RssRoundTrip.FeedComesBack | rust/crates/smart-hedge-data/src/rss_xml.rs:219-276 | A printed feed of items and Atom entries, mixed, under any wrapping elements and with arbitrary texts, is read back as exactly its first `max_items` items, or its first entries if and only if it has no item |
| RssRoundTrip.RssAndAtomComeBack | rust/crates/smart-hedge-data/src/rss_xml.rs:219-276 | RSS with `description` and `pubDate`, and Atom with `summary` and `published` or `updated`, come back up to the limit |
| RssRoundTrip.PostPassed | rust/crates/smart-hedge-data/src/rss_xml.rs:227-276 | A printed post of the other kind changes nothing in the search for blocks |
| RssTags.AttributesPassed | rust/crates/smart-hedge-data/src/rss_xml.rs:101-119 | Attributes in double or single quotes are passed over whatever their values hold, `>` and the other quote included |
| RssTags.TagIsRead | rust/crates/smart-hedge-data/src/rss_xml.rs:72-130 | A tag with any name and any attributes is found with that name, where it ends, and as empty if and only if a slash ends it |
| RssTags.PrefixIsDropped | rust/crates/smart-hedge-data/src/rss_xml.rs:132-137 | The local name is what follows the last colon |
| RssTags.DecoratedFieldIsRead | rust/crates/smart-hedge-data/src/rss_xml.rs:145-170 | A field with a prefix and attributes gives its escaped text back |
| RssTags.EmptyFieldIsRead | rust/crates/smart-hedge-data/src/rss_xml.rs:145-170 | An empty element of a field is a field without text |
| RssTags.DecoratedBlock | rust/crates/smart-hedge-data/src/rss_xml.rs:227-276 | A block with a prefix and attributes is found, and its inner text runs from its own tag to its close tag |
| RssTags.EmptyBlockPassed | rust/crates/smart-hedge-data/src/rss_xml.rs:227-276 | An empty element is no block, whatever its name |
| RssTags.CommentIsSkipped | rust/crates/smart-hedge-data/src/rss_xml.rs:27-59 | A comment is skipped to its end, whatever tags it holds |
| RssTags.InstructionIsSkipped | rust/crates/smart-hedge-data/src/rss_xml.rs:27-59 | A processing instruction is skipped to its end |
| RssTags.SearchGoesOn | rust/crates/smart-hedge-data/src/rss_xml.rs:72-130 | The tag search goes on behind what was skipped |
| RssTags.MixedTextIsRead | rust/crates/smart-hedge-data/src/rss_xml.rs:177-194 | Escaped text around a verbatim stretch is decoded and the stretch is not |
| RssTags.UnclosedTextIsRead | rust/crates/smart-hedge-data/src/rss_xml.rs:177-194 | A verbatim stretch that is never closed runs to the end |
| RssDoctype.DoctypeSkippedExactly | rust/crates/smart-hedge-data/src/rss_xml.rs:37-57 | A DOCTYPE without internal subset is skipped to its own `>` if and only if no `[` follows in the document |
| RssDoctype.DoctypeIsTag | rust/crates/smart-hedge-data/src/rss_xml.rs:72-119 | One whose `[` is never closed is not skipped but taken for an open tag, which ends at the same place |
| RssDoctype.FeedComesBackExactly | rust/crates/smart-hedge-data/src/rss_xml.rs:27-59 | Behind such a declaration, with its quotes closed, a printed feed comes back for every limit if and only if no `]` of it follows a `[` of it |
| RssDoctype.PostsLostAfterDoctype | rust/crates/smart-hedge-data/src/rss_xml.rs:37-59 | Otherwise exactly the posts up to one that holds such a `]` are lost, and the others are read |
| RssDoctype.LostFeed | rust/crates/smart-hedge-data/src/rss_xml.rs:37-59 | A feed with one item titled `[a]` comes back empty |
| RssDoctype.SubsetSkippedExactly | rust/crates/smart-hedge-data/src/rss_xml.rs:37-57 | A DOCTYPE with a subset is skipped to its own end, whatever follows, if and only if no `>` of the subset follows a `]` of it |
| RssDoctype.FeedComesBackAfterSubset | rust/crates/smart-hedge-data/src/rss_xml.rs:27-59 | Behind such a declaration every printed feed comes back, with or without brackets in its texts |
| Sha256.Pad | rust/crates/smart-hedge-models/src/sha256.rs:26-35 | The pushing loop builds the padded text of the specification |
| Sha256.PaddedShape | rust/crates/smart-hedge-models/src/sha256.rs:26-35 | Padding is the message, one bit, zeros and the 64-bit length, of the least multiple of 64 bytes not below length plus 9 (section 5.1.1 of FIPS 180-4) |
| Sha256.PaddingIsInjective | rust/crates/smart-hedge-models/src/sha256.rs:26-35 | Different messages have different paddings, for messages of any length |
| Sha256.Schedule | rust/crates/smart-hedge-models/src/sha256.rs:43-54 | The array filled in place is the message schedule of section 6.2.2 of FIPS 180-4 |
| Sha256.CompressionLoop | rust/crates/smart-hedge-models/src/sha256.rs:56-76 | The eight shifting registers after 64 turns are the recursive rounds |
| Sha256.CompressBlock | rust/crates/smart-hedge-models/src/sha256.rs:42-86 | The state updated in place is the block function of the old state |
| Sha256.Sha256 | rust/crates/smart-hedge-models/src/sha256.rs:38-93 | The digest is the block function folded over the blocks of the padding, in big-endian bytes |
| Sha256.FoldOfConcat | rust/crates/smart-hedge-models/src/sha256.rs:42-86 | Hashing is a fold: the state after a first part is all the rest depends on |
| Sha256.FoldOfBlock | rust/crates/smart-hedge-models/src/sha256.rs:38-93 | One block is one application of the block function, and none is none; with the row before this fixes the fold |
| Sha256.OutputWord | rust/crates/smart-hedge-models/src/sha256.rs:88-93 | Each word of the state stands in its place of the output |
| Sha256Bits.ChBits | rust/crates/smart-hedge-models/src/sha256.rs:59 | Bit by bit, `Ch` takes the second word where the first has a one and the third where it has a zero (section 4.1.2 of FIPS 180-4) |
| Sha256Bits.MajBits | rust/crates/smart-hedge-models/src/sha256.rs:66 | Bit by bit, `Maj` is what at least two of the three words have |
| Sha256Bits.BigSigma0Bits | rust/crates/smart-hedge-models/src/sha256.rs:65 | Bit `i` is the exclusive or of the bits `i + 2`, `i + 13` and `i + 22` modulo 32 |
| Sha256Bits.BigSigma1Bits | rust/crates/smart-hedge-models/src/sha256.rs:58 | Bit `i` is the exclusive or of the bits `i + 6`, `i + 11` and `i + 25` modulo 32 |
| Sha256Bits.SmallSigma0Bits | rust/crates/smart-hedge-models/src/sha256.rs:48 | Bit `i` is the exclusive or of the bits `i + 7` and `i + 18` modulo 32 and of bit `i + 3`, if there is one |
| Sha256Bits.SmallSigma1Bits | rust/crates/smart-hedge-models/src/sha256.rs:49 | Bit `i` is the exclusive or of the bits `i + 17` and `i + 19` modulo 32 and of bit `i + 10`, if there is one |
| Sha256Abc.DigestOfAbc | rust/crates/smart-hedge-models/src/sha256.rs:26-121 | The digest of `abc` is the published one, derived word by word and round by round from padding to output |
| Sha256.ConstantsAreRoots | rust/crates/smart-hedge-models/src/sha256.rs:11-24 | The 64 round constants and 8 initial words are the fractions of cube and square roots of the first primes (sections 4.2.2 and 5.3.3 of FIPS 180-4) |
| Rounding.RoundingIsNearestEven | rust/crates/smart-hedge-policy/src/rounding.rs:9-26 | The result is the only integer that is nearest, and even when two are (section 4.3.1 of IEEE 754-2008) |
| Rounding.RoundingIsOdd | rust/crates/smart-hedge-policy/src/rounding.rs:9-26 | Rounding commutes with negation |
| Rounding.RoundingIsMonotone | rust/crates/smart-hedge-policy/src/rounding.rs:9-26 | Rounding preserves order |
| Rounding.RoundsToZeroExactly | rust/crates/smart-hedge-policy/src/rounding.rs:9-26 | Exactly the values of at most one half in size round to zero, and no value moves by more than one half |
| Policy.EvaluatePolicy | rust/crates/smart-hedge-policy/src/evaluate.rs:44-187 | Each blocker is listed if and only if its check fails; action, preview, notional and warnings follow |
| Policy.FailsClosed | rust/crates/smart-hedge-policy/src/evaluate.rs:147-158 | A preview is approved if and only if no check fails; otherwise nothing is traded; live execution is never allowed |
| Policy.ApprovedPreviewIsLimited | rust/crates/smart-hedge-policy/src/evaluate.rs:129-147 | An approved preview obeys the share and notional limits, and is zero on a market that must be open and is not |
| Policy.AdviserOnlyWidensOrNarrows | rust/crates/smart-hedge-policy/src/evaluate.rs:104-158 | For any two assessments on the same inputs: equal target, position and raw trade, and a preview that is zero or the same core trade |
| Policy.WiderBandKeepsHolds | rust/crates/smart-hedge-policy/src/evaluate.rs:125-158 | A larger multiplier never turns a hold into a trade |
| Policy.StaleExactly | rust/crates/smart-hedge-policy/src/evaluate.rs:65-73 | With a limit that is not negative, a quote is stale if and only if its timestamp is unreadable or lies more nanoseconds before now than the limit allows; one from the future never is |
| Policy.StaleStaysStale | rust/crates/smart-hedge-policy/src/evaluate.rs:65-73 | A quote that is stale stays stale as time goes on, for every limit |
| Policy.InvalidExactly | rust/crates/smart-hedge-policy/src/evaluate.rs:60-63 | A quote is invalid if and only if it has neither a two-sided market nor a positive last price |
| Policy.WideExactly | rust/crates/smart-hedge-policy/src/evaluate.rs:75-80 | When a spread is too wide, in ten-thousandths of the mid price, a crossed or worthless market included |
| Policy.MultiplierExactly | rust/crates/smart-hedge-policy/src/evaluate.rs:104-112 | The multiplier by cases: one for an unsure adviser, else its own moved into the bounds |
| Policy.HoldsExactly | rust/crates/smart-hedge-policy/src/evaluate.rs:114-127 | An approved day holds if and only if target and position are no further apart than the band times the multiplier |
| Policy.TradesExactly | rust/crates/smart-hedge-policy/src/evaluate.rs:114-158 | An approved rebalance previews the gap, or with whole shares the nearest even-rounded integer to it, worth its size at mid price |
| Policy.LimitsExactly | rust/crates/smart-hedge-policy/src/evaluate.rs:129-147 | When the share limit, the notional limit and the closed market block, in numbers of the trade that would be made |
| Policy.DataExactly | rust/crates/smart-hedge-policy/src/evaluate.rs:53-102 | When mode, data quality and unknown evidence block, and what any blocker leads to |
| Policy.WarnsExactly | rust/crates/smart-hedge-policy/src/evaluate.rs:82-112 | Each warning is raised exactly when due, behind those of the features |
| Policy.MultiplierIsBounded | rust/crates/smart-hedge-policy/src/evaluate.rs:13-20 | The multiplier is one or within the configured bounds; with crossed bounds the upper one wins |
| Policy.PositionAfterTrade | rust/crates/smart-hedge-policy/src/evaluate.rs:114-158 | An approved day ends within the band when held, on the target with fractional shares, within half a share otherwise |
| Policy.RebalanceMovesExactly | rust/crates/smart-hedge-policy/src/evaluate.rs:127-158 | A rebalancing preview moves the position if and only if fractional shares are allowed or the raw trade exceeds half a share |
| Policy.ZeroSharePreview | rust/crates/smart-hedge-policy/src/evaluate.rs:127-158 | Inputs whose decision is an approved rebalance for zero shares |
| Policy.GateAgreesWithCore | rust/crates/smart-hedge-policy/src/evaluate.rs:114-158 | With multiplier one, fractional shares and no blocker the gate previews exactly the core's recommendation, hold or trade |
| Backtest.RunBacktest | rust/crates/smart-hedge-backtest/src/lib.rs:96-172 | The day loop yields a run in which each day is decided by the gate on the position the day before left, and stops with the first failing day |
| Backtest.RunConserves | rust/crates/smart-hedge-backtest/src/lib.rs:144-163 | Over any run the position is the initial one plus the trades, and the trades stay within turnover and the per-trade limit |
| Backtest.BacktestConserves | rust/crates/smart-hedge-backtest/src/lib.rs:144-172 | The reported final position, turnover and trading days obey: move at most turnover, turnover at most trading days times the limit |
| Backtest.TotalsAdd | rust/crates/smart-hedge-backtest/src/lib.rs:96-172 | Net trades, turnover and trading days of two stretches add up |
| Backtest.OneDayTotals | rust/crates/smart-hedge-backtest/src/lib.rs:144-163 | One day counts the size of its trade as turnover, and as a trading day only if the gate rebalances; with the row before this fixes all three totals |
| Backtest.TradingDaysAreCounted | rust/crates/smart-hedge-backtest/src/lib.rs:144-163 | The trading days reported are the number of days the gate rebalanced |
| Backtest.EveryDayTracksItsTarget | rust/crates/smart-hedge-backtest/src/lib.rs:144-163 | After every day of a run: near that day's target as the action says, or unmoved when blocked |
| ConfigMerge.DeepMerge | rust/crates/smart-hedge-config/src/merge.rs:8-31 | The loop over override keys computes the recursive merge, in whatever order keys come |
| ConfigMerge.MergeIsIdempotent | rust/crates/smart-hedge-config/src/merge.rs:8-31 | Merging the same override again changes nothing |
| ConfigMerge.UntouchedPathsKeepBase | rust/crates/smart-hedge-config/src/merge.rs:8-31 | Every path the override does not mention keeps its base value |
| ConfigMerge.OverrideLeavesWin | rust/crates/smart-hedge-config/src/merge.rs:8-31 | Every leaf of the override is in the result |
| ConfigMerge.CoveredExactly | rust/crates/smart-hedge-config/src/merge.rs:8-31 | When exactly nothing of the base survives |
| ConfigMerge.MergeIsAssociativeExactly | rust/crates/smart-hedge-config/src/merge.rs:8-31 | Two layers can be merged first and applied together if and only if no middle layer cuts off an object that comes back above it uncovered |
| ConfigMerge.GroupingMatters | rust/crates/smart-hedge-config/src/merge.rs:8-31 | Three layers that give different trees grouped and one by one |
| ConfigMerge.SetNestedIsMergeExactly | rust/crates/smart-hedge-config/src/loader.rs:23-37 | Setting a nested string is merging the object with that one path, if and only if the path is not empty or the root is that string already |
| ConfigMerge.ConfigTree.SetNestedString | rust/crates/smart-hedge-config/src/loader.rs:23-37 | The walk down the path leaves the tree with the string at its end, objects made on the way, everything else kept |
| ConfigMerge.ConfigTree.ApplyEnvOverrides | rust/crates/smart-hedge-config/src/loader.rs:39-55 | The five conditional overrides in sequence are one merge of their union |
| ConfigMerge.SettingsAreOneMergeExactly | rust/crates/smart-hedge-config/src/loader.rs:39-55 | For any list of settings, applying them in order is one merge of their union, if and only if the root is an object or there is a setting |
| ConfigMerge.LoadTree | rust/crates/smart-hedge-config/src/loader.rs:66-93 | Defaults, file and environment are merged in this order; a file whose root is no object is refused |
| ConfigMerge.LastLayerDecides | rust/crates/smart-hedge-config/src/loader.rs:66-93 | At every path the last layer with a leaf there decides, when later layers do not mention the path |
| ConfigMerge.EnvironmentDecides | rust/crates/smart-hedge-config/src/loader.rs:39-93 | At every section and key, with a file or without: the environment's string at exactly the five places it can set, else what file over defaults says |
| Query.PercentDecode | rust/crates/smart-hedge-dashboard/src/http.rs:127-154 | The index loop and the lossy conversion compute the decoding, which is always UTF-8 and never longer than the text it was given |
| Query.ParseQuery | rust/crates/smart-hedge-dashboard/src/http.rs:156-166 | The loop over the parts fills the map of the specification, the last value of a key winning |
| Query.DecodeUndoesEncode | rust/crates/smart-hedge-dashboard/src/http.rs:127-152 | Before the conversion, decoding undoes every legal encoding of every byte string, each byte written in any of its ways (section 2.1 of RFC 3986, `+` for a space) |
| Query.OtherBytesStand | rust/crates/smart-hedge-dashboard/src/http.rs:127-152 | What is no escape and no `+` stands for itself, incomplete and malformed escapes included |
| Query.TextComesBackExactly | rust/crates/smart-hedge-dashboard/src/http.rs:112-154 | An encoded byte string comes back if and only if it is UTF-8, and otherwise as its lossy conversion |
| Utf8.PieceIsCharacter | rust/crates/smart-hedge-dashboard/src/http.rs:153 | Every piece the conversion keeps is the encoding of a Unicode scalar value (section 3 of RFC 3629) |
| Utf8.CharacterIsPiece | rust/crates/smart-hedge-dashboard/src/http.rs:153 | Every encoded scalar value is kept as one piece, whatever follows |
| Utf8.LossyKeepsExactly | rust/crates/smart-hedge-dashboard/src/http.rs:153 | The conversion always yields UTF-8, and changes nothing if and only if it was given UTF-8 |
| Utf8.CutExactly | rust/crates/smart-hedge-dashboard/src/http.rs:153 | A piece that is replaced is one byte or the beginning of a character, and no character goes on with the byte behind it |
| Query.ParseUndoesEncoding | rust/crates/smart-hedge-dashboard/src/http.rs:156-166 | Parsing an encoded list of pairs gives the map of the pairs, each converted |
| Query.OnePartMore | rust/crates/smart-hedge-dashboard/src/http.rs:156-166 | What one more part does to the map: nothing if empty, a key without value if it has no `=`, else the pair around its first `=` |
| Query.MapComesBackExactly | rust/crates/smart-hedge-dashboard/src/http.rs:156-166 | A map of byte strings comes back, whatever the order of its pairs and the spelling of its bytes, if and only if all its keys and values are UTF-8 |
| Query.BadKeysCollide | rust/crates/smart-hedge-dashboard/src/http.rs:153-166 | `%FE=1&%FF=2` becomes one entry, under U+FFFD |
| McpServer.AnswersMirrorRequests | rust/crates/smart-hedge-mcp/src/protocol.rs:169-212 | For every line: answered if and only if it is no JSON or has an id; the answer is a response of JSON-RPC 2.0 with that id and exactly one of result and error, an error if and only if the line is malformed or the method unknown |
| McpServer.MethodsAnswer | rust/crates/smart-hedge-mcp/src/protocol.rs:169-212 | The whole answer to a ping, to a request for the tool list, to an unknown method and to a malformed line, with names, codes and words |
| McpServer.ToolsAnswer | rust/crates/smart-hedge-mcp/src/protocol.rs:96-136 | Which six tools there are; an unknown one and a replay without an id fail with their words, and otherwise the engine decides; a failure is a result marked as an error |
| McpServer.HandshakeAnswer | rust/crates/smart-hedge-mcp/src/protocol.rs:138-149 | The handshake answers with the fixed members and one version: the one asked for, or the default |
| McpServer.RunStdio | rust/crates/smart-hedge-mcp/src/server.rs:13-24 | The loop writes exactly the answers to the lines read, in order, up to a write that fails, and succeeds if and only if no read and no write fails |
| McpServer.LinesAreWhatWasGot | rust/crates/smart-hedge-mcp/src/server.rs:13-24 | The lines answered are what was read before the first failing read |
| McpServer.AnswersKeepOrder | rust/crates/smart-hedge-mcp/src/server.rs:13-24 | The ids going out are the ids coming in: nothing skipped, doubled or out of turn |
| McpClient.McpClient.Spawn | rust/crates/smart-hedge-mcp-client/src/lib.rs:80-106 | A client exists if and only if the process starts and the handshake, sent under id 1, succeeds |
| McpClient.McpClient.Call | rust/crates/smart-hedge-mcp-client/src/lib.rs:108-140 | One id is used up, at most one request is written, and the one line read decides the outcome |
| McpClient.CallExactly | rust/crates/smart-hedge-mcp-client/src/lib.rs:108-140 | The request written, member by member, and what each kind of line read makes of the call: an `error` member wins over a result, and a missing result is null |
| McpClient.McpClient.CallTool | rust/crates/smart-hedge-mcp-client/src/lib.rs:147-166 | A tool call is such a call, with text and failure flag taken from the result |
| McpClient.ToolTextExactly | rust/crates/smart-hedge-mcp-client/src/lib.rs:147-166 | The text is that of the first content item, empty without one, and the flag makes it an error |
| McpClient.MethodComesThrough | rust/crates/smart-hedge-mcp-client/src/lib.rs:115-140 | What the server computes for a method is what the call returns; an unknown method is a protocol error |
| McpClient.HandshakeAgrees | rust/crates/smart-hedge-mcp/src/protocol.rs:138-149 | The handshake always succeeds, on the version the client names or else the default |
| McpClient.ToolComesThrough | rust/crates/smart-hedge-mcp-client/src/lib.rs:147-166 | A tool's text arrives as text and its failure as a tool error with the same words, through both halves |
| McpLockstep.InvariantHolds | rust/crates/smart-hedge-mcp-client/src/lib.rs:108-140 | In every interleaving, with failed writes, abandoned reads and a dying server: nothing is lost, doubled or reordered between the processes |
| McpLockstep.IdsCountCalls | rust/crates/smart-hedge-mcp-client/src/lib.rs:108-112 | The `k`-th call carries id `k`, failed writes included |
| McpLockstep.AtMostOneOutstanding | rust/crates/smart-hedge-mcp-client/src/lib.rs:115-140 | At most one request is outstanding, plus one for each read given up |
| McpLockstep.WaitingCallProceeds | rust/crates/smart-hedge-mcp-client/src/lib.rs:121-129 | A waiting call is never stuck |
| McpLockstep.RepliesInOrder | rust/crates/smart-hedge-mcp-client/src/lib.rs:121-140 | The replies consumed answer the requests in the order written |
| McpLockstep.OwnAnswerExactly | rust/crates/smart-hedge-mcp-client/src/lib.rs:115-140 | In every interleaving a call is handed the whole answer to its own request if and only if no call before it gave up on a read, between lines or within one |
| McpLockstep.CallIsSteps | rust/crates/smart-hedge-mcp-client/src/lib.rs:115-140 | A send, any steps of the server, and a step that ends the read are together one call as the contract of `Call` describes it; so is a failed write |
| McpLockstep.GivenUpReadMisleads | rust/crates/smart-hedge-mcp-client/src/lib.rs:115-140 | A run in which the second call is handed the first call's answer |
| Autonomous.RunGuardCycle | rust/crates/smart-hedge-cli/src/commands.rs:303-442 | Exactly when a cycle fails hard, proposes nothing, is refused or filled, and exactly which order the guard is sent |
| Autonomous.FailsExactly | rust/crates/smart-hedge-cli/src/commands.rs:303-442 | When a cycle counts as an error, call by call |
| Autonomous.SideExactly | rust/crates/smart-hedge-cli/src/commands.rs:382-430 | The order sent buys what the recommendation adds to the position and sells what it takes away, in its size |
| Autonomous.OnlyCheckedTradesAreProposed | rust/crates/smart-hedge-cli/src/commands.rs:312-328 | Behind the gate, a trade is proposed if and only if no check blocks, it is outside the band and it does not round to nothing |
| Autonomous.OrdersObeyThePolicy | rust/crates/smart-hedge-cli/src/commands.rs:382-430 | An order sent to the guard is the core's trade, within both limits of the gate |
| Autonomous.CmdAutonomous | rust/crates/smart-hedge-cli/src/commands.rs:579-626 | The loop, with its two counters, ends at the first tick with a reason to stop, for the reason checked first, and sends exactly the orders of the cycles before it |
| Autonomous.CountIsWindow | rust/crates/smart-hedge-cli/src/commands.rs:606-620 | The error counter is the length of the trailing error run and reaches the cap exactly when the last cap cycles failed |
| Autonomous.ExitIsUnique | rust/crates/smart-hedge-cli/src/commands.rs:584-626 | The trace fixes how the loop ends and how many cycles it ran |
| Autonomous.ExitIsFinal | rust/crates/smart-hedge-cli/src/commands.rs:584-626 | What comes later does not change how the loop ended |
| Autonomous.CyclesAreBounded | rust/crates/smart-hedge-cli/src/commands.rs:584-620 | No cycle at or after a stop file, never more than the maximum, none after a full window of errors |
| Autonomous.BreaksExactly | rust/crates/smart-hedge-cli/src/commands.rs:611-620 | The loop halts with an error if and only if a full window of errors comes before any stop file and the maximum |
| Autonomous.HaltsOnTheGivenNumber | rust/crates/smart-hedge-cli/src/commands.rs:579-620 | In terms of the number given: the loop halts with an error if and only if that many cycles in a row fail before any stop file and the maximum, and reports that number; given zero, the first failing cycle halts it |
| Autonomous.EndsOnTheGivenMaximum | rust/crates/smart-hedge-cli/src/commands.rs:584-605 | A loop that ends without an error ends at the first stop file, or after exactly the number of cycles given as the maximum |
| Autonomous.RefusalsNeverBreak | rust/crates/smart-hedge-cli/src/commands.rs:606-620 | A fill, refusal or quiet cycle among any cap cycles in a row keeps the breaker closed |

## Left out

- Hedge.CalculatePriceGreeks: the numbers `exp` gives for a market are inputs, with the order and the equations between the six markets that `exp` guarantees.
- Hedge.Calculate: floating-point rounding, not-a-number and infinity; the checks for finite arguments hold of every real.
- Policy.EvaluatePolicy: the blocker for non-finite core values, which no real can raise (an infinite spread or age is modelled as such); case-insensitive comparison of the mode is one flag.
- Backtest.RunBacktest: market snapshot, features, core answer and adviser are inputs of each day; the core is taken to report back the position it was given.
- Store.DecisionStore.Recent: of the orders the query allows for equal stamps, one is computed and all are specified; upper-casing is a parameter, and stored JSON is taken to be readable.
- Store.DecisionStore.Append: canonical JSON and content hash of the payload, and its missing-field errors.
- Sha256.Sha256: the hexadecimal spelling of the digest, and collision resistance.
- RssScanner.ScanFirstMatch: returns the text only; the offset behind it, which no caller uses, is dropped.
- RssXml.NextOpenTag: text is characters, not UTF-8 bytes; offsets count characters.
- Query.ParseQuery: the query is a sequence of bytes, text being UTF-8 bytes throughout.
- ConfigMerge.DeepMerge: works on a copy of the node and returns it where the source mutates it behind a reference; aliasing is not captured.
- ConfigMerge.LoadTree: reading and parsing the file, and what is checked once the tree is typed.
- ConfigMerge.ConfigTree.SetNestedString: the borrowed node pointer is the list of objects passed, written back at the end.
- McpServer.AnswersMirrorRequests: parsing and printing of JSON; a line is blank, malformed or a value. The tool list and fixed handshake members are data, and argument defaults of the tools belong to the engine.
- McpLockstep.InvariantHolds: a server that dies within a line; the rest of a line whose beginning was lost is taken to be no JSON.
- McpClient.McpClient.Call: overflow of the 64-bit request id.
- McpClient.McpClient.Spawn: arguments of the process, and killing it when the client is dropped.
- Autonomous.CmdAutonomous: sleeping, messages and overflow of the 32-bit counters; a trace is any finite beginning of what the loop finds.
- Autonomous.RunGuardCycle: the siblings are modelled by the results of the calls made to them; the other fields of the order and of the evidence bundle are data.
- Timestamp.ParseFlexible: overflow checks of 64-bit seconds, which four-digit years cannot reach.
- Calendar.DayNumberComesBack: 64-bit overflow for years far outside any timestamp.
- `exp`, `erfc` and the Black-Scholes formula: the closed-form price is an arbitrary function of spot.
- HTTP clients, sockets, files, environment variables and SQLite: foreign calls, modelled as inputs or an abstract table.
- HTML console, routing, command-line parsing, error display, audit text scan, evidence defaults, portfolio sums, feature statistics, cache and random numbers: only easy members next to these.
