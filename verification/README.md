# A verified model of the OPC UA exporter

The exporter subscribes to nodes of an OPC UA server and republishes their values as Prometheus
gauges. This project models the path from configuration to gauge, and the decision about which
server endpoint to use, and proves what that path guarantees.

| file | what it models |
|---|---|
| `Outcomes.dfy`, `Text.dfy`, `Decimal.dfy` | options and results, filtering, trimming and splitting, decimal printing and the two parsers of it |
| `Bits.dfy`, `Bytes.dfy`, `Variants.dfy`, `BitVector.dfy` | powers of two and bits, mask and shift on one byte, the values a server reports, the bit-vector handler |
| `ValueConversion.dfy`, `Gauges.dfy` | the value handler, gauges, and the two handler kinds that own one each |
| `Summary.dfy` | the event counter shared by the monitor and the summary ticker |
| `NodeConfig.dfy`, `NodeFlag.dfy`, `NodeEnv.dfy` | node mappings: validation, loading, override by flags; the flag text and the numbered environment variables, each with its parser and its printer |
| `Metrics.dfy` | the registry: unique names, one gauge per mapping, handlers grouped by node |
| `Monitor.dfy` | the monitor loop and the dispatch of a message |
| `Goroutines.dfy` | monitor and ticker interleaved, one atomic operation at a time |
| `Security.dfy`, `Connection.dfy` | settings and their validation, endpoint selection, token lookup, connecting and retrying |
| `Exporter.dfy` | the pieces in the order of the main program, and the properties that span them |

The main results:

- **Bits.** For every value and every bit number the byte-level handler returns the bit of the
  two's-complement form, with the width of the value's type, or the right error
  (`FloatValueIsArithmeticBit`, `ExportsBitsExactly`); the exported bits of an element, weighted, give
  the element back (`Reconstruction`), and equal what the value handler exports (`ValueFromBits`).
- **Whole runs.** Unless there is an obstacle, which is named exactly (`StartsExactly`), after any
  schedule of the monitor and the ticker (`RunExporter`) there is a gauge under the metric name of every
  mapping, and it shows the bit or the number of the last good message for its node that has one, or
  zero (`DisplayedByRun`, `GaugeShowsLast`). That is what the monitor's loop alone would show for the
  events before the message in flight (`GaugesOfRun`, `GaugesUnderInterleaving`).
- **Accounting.** Under every interleaving each delivered message is printed in a summary, lost in
  the start-up Reset, lost between a report and its Reset, still held, or in flight
  (`EveryEventAccounted`), and it is accounted for on the channel of its own node (`ChannelsAccounted`).
- **Configuration.** What flags and environment variables mean is stated by their fields and names
  (`FlagFields`, `VariablesRead`, `ScansExactly`). The flag and the environment round trips hold under
  conditions that are necessary as well as sufficient (`FlagListRoundTrip`, `EnvRoundTrip`); overriding
  has a closed form (`OverridesClosedForm`) and never makes registration refuse a duplicate
  (`OverridesNeverCollide`).
- **Registration** succeeds exactly when nothing is wrong with any mapping, and otherwise stops at the
  first offender in a known state (`SucceedsExactly`, `StopsAtFirstOffender`, `LeftBehind`).
- **Connecting.** In every world an attempt succeeds if and only if nothing stands in the way, which is
  spelled out (`AttemptsExactly`, `ConnectsExactly`). Whatever the server offers, a connection has the
  configured mode, policy match and token (`ConnectedAsConfigured`), because the selector's fallback is
  out of reach (`NoFallbackAfterDiscovery`).

Where the code does not do what its documentation or a reader would expect, the model follows the code:

- Validation accepts an integral float64 bit, registration refuses it, and the name stays registered
  without a handler (`ValidButRefused`, `FloatBitRefused`, `LeftBehind`). Only the file can bring such
  a bit in (`RefusedBitIsFromFile`).
- Flags are not validated, so a negative bit gets through; its gauge never moves (`NegativeBitIsStuck`).
- The filter for empty mappings runs after a validation that has refused them; it never removes anything
  (`LoadNodes`).
- The limit of 100 environment mappings in the documentation (`README.md`, lines 181 and 267) is not in the code.
- Read timeouts are counted over the whole run, not consecutively (`TimesOutExactly`, `MessagesDoNotReset`).
- A request for policy Basic256 can be served with Basic256Sha256, because policies are matched by
  substring. Among the configurable policies this is the only inexact match (`PolicyMatchExactly`), and
  it happens exactly when Basic256Sha256 is listed first (`ServedPolicy`, `Basic256TakesSha256`).
- Settings whose certificates cannot be loaded pass validation, and every attempt to connect with them
  fails and is retried (`AcceptedConnectsExactly`, `CertificateWithoutFiles`).
- A mapping whose node name is not spelled as the server reports it is subscribed but never moves its
  gauge (`CanonicalNamesFire`, `DefaultNamespaceIsStuck`).

The byte layout is the one of section 5.2.2.2 of OPC 10000-6 (v1.04); the list of endpoints is the result
of GetEndpoints, section 5.4.4 of OPC 10000-4 (v1.04).

Inputs that the model takes as parameters: the event sequence of the monitor loop, the environment, the
mappings of the configuration file, the metric names already taken and which names Prometheus finds well
formed, which files exist and which certificates load, what the server answers during an attempt to
connect and to the subscription, and the schedule of the two goroutines.
Preconditions such as `Valid()` state the invariant of an object that its constructor establishes and every
method keeps. `hide` at the head of some proofs keeps the solver from unfolding definitions that the
proof does not need.

## Model

| member | source | states |
|---|---|---|
| Bytes.MaskedBit | internal/handlers/opcua_bitvector_handler.go:96-98 | masking a byte with a shifted one and shifting back is bit j of its arithmetic value |
| BitVector.Buffer.WriteVariant | internal/handlers/opcua_bitvector_handler.go:70-78 | the buffer gains exactly the little-endian layout of the value, or nothing when it has no fixed size |
| BitVector.VariantToByteArray | internal/handlers/opcua_bitvector_handler.go:70-78 | the bytes are the layout, as many as the type takes for all elements (1 for a boolean, 4 or 8 for a float, the size of an integer); the error case is the type without a fixed size |
| BitVector.LittleEndianByte | internal/handlers/opcua_bitvector_handler.go:67-78 | byte i of a word is the word divided by 256^i, modulo 256 |
| BitVector.ConcatenatedByte | internal/handlers/opcua_bitvector_handler.go:70-78 | byte i of element e of an array stands at offset n * e + i |
| BitVector.FloatValueIsArithmeticBit | internal/handlers/opcua_bitvector_handler.go:51-99 | for every value and bit number: the bit of the two's-complement form, or the error, and which error; for Null on the assumption that the encoder refuses it |
| BitVector.ScalarBit | internal/handlers/opcua_bitvector_handler.go:51-99 | for a scalar of any type, with its width w written out: (v mod 2^w) div 2^k mod 2, in range exactly for 0 <= k < w, and which error otherwise |
| BitVector.ArrayBit | internal/handlers/opcua_bitvector_handler.go:70-98 | bit 8 * n * e + j of an array of n-byte integers is bit j of its element e |
| BitVector.ExportsBitsExactly | internal/handlers/opcua_bitvector_handler.go:51-99 | a handler exports x if and only if that bit of the value, type by type, is x; and exactly when it refuses the type or the bit number |
| BitVector.BitReachable | internal/handlers/opcua_bitvector_handler.go:86-95 | a bit number is in range of some value if and only if it is not negative |
| BitVector.Reconstruction | internal/handlers/opcua_bitvector_handler.go:70-99 | the exported bits of an element, with a negative top weight if signed, sum up to the element |
| BitVector.NothingLost | internal/handlers/opcua_bitvector_handler.go:70-99 | values of one type and shape with the same exported bits are equal |
| ValueConversion.ConvertedExactly | internal/handlers/opc_value_handler.go:40-116 | helper, the definitions read in one condition: converted are exactly the scalars of a boolean, numeric or time type, each to its number |
| ValueConversion.ValueFromBits | internal/handlers/opc_value_handler.go:40-116 | the value handler exports the number that the exports of the bit handlers spell |
| Gauges.Handler.Handle | internal/handlers/opc_value_handler.go:28-35 | without an error the gauge shows the bit or the number that the handler is for; with one, there is none to show and the gauge stays as it is |
| Gauges.ConvertedIsExport | internal/handlers/opc_value_handler.go:40-49 | a value is converted to x if and only if x is the number it stands for, type by type, or for a bit handler that bit |
| Summary.EventSummaryCounter.Inc | internal/handlers/summary.go:31-36 | one more on the channel and in total, and one operation more in the history |
| Summary.EventSummaryCounter.Reset | internal/handlers/summary.go:39-44 | everything back to nothing |
| Summary.EventSummaryCounter.LogSummary | internal/handlers/summary.go:66-74 | reports the total, the number of channels, and one line with count and rate for every channel, and changes nothing |
| Summary.Conservation | internal/handlers/summary.go:31-44 | after any operations: increments = current total + what all Resets discarded |
| Summary.HoldsSinceReset | internal/handlers/summary.go:31-44 | total, keys and counts are exactly the increments since the last Reset, channel by channel |
| Summary.TotalIsSum | internal/handlers/summary.go:31-44 | in every reachable state the total is the sum of the counts, no count is zero, and channels never outnumber events |
| Summary.TotalGrowsByIncs | internal/handlers/summary.go:31-74 | without a Reset in between the total grows by the increments in between |
| Summary.ConservationOn | internal/handlers/summary.go:31-44 | conservation on every channel by itself |
| NodeConfig.ValidExactly | internal/config/config.go:21-43 | which mappings are valid, the float64 bits being those of a non-negative int; and which error for the others |
| NodeConfig.FilterValidNodeMappings | internal/config/config.go:261-269 | keeps the mappings with both names, in order |
| NodeConfig.LoadNodes | internal/config/config.go:208-224 | environment before file; the first invalid mapping is reported; otherwise all are kept, so the final filter removes nothing |
| NodeConfig.Config.AddNodeMapping | internal/config/config.go:300-314 | drops mappings of the same metric, keeps the others in order, appends the new one |
| NodeConfig.OverridesClosedForm | cmd/opcua_exporter/main.go:286-298 | any list of overrides: base without the named metrics in its order, then the last flag for each metric in order of last occurrence |
| NodeConfig.OverridesUnique | internal/config/config.go:300-314 | the result has unique metrics exactly when the part of the base that no flag names has |
| NodeConfig.OverridesIdempotent | internal/config/config.go:298-314 | the same flags a second time change nothing |
| Decimal.PrintParse | e2e/utils/opcua_exporter.go:317-323 | printing an int and reading it back with either parser, the scanner also with other text behind it |
| Decimal.AtoiIsFullScan | internal/config/config.go:249-253 | Atoi is the scanner restricted to texts that it reads to the end |
| Decimal.ScansExactly | cmd/opcua_exporter/main.go:149-153 | which texts the scanner reads, and as what number: a sign and decimal digits, up to the first other character, in range |
| Decimal.DigitsExactly | e2e/utils/opcua_exporter.go:317-323 | the printed digit k places before the last is that of 10^k |
| Decimal.LeadingDigit | internal/config/config.go:249-253 | a digit in front counts 10 to the power of the number of digits behind it |
| NodeFlag.NodeArguments | e2e/utils/opcua_exporter.go:317-323 | after the given arguments, one option and one flag text per node, in order |
| NodeFlag.FlagRoundTrip | cmd/opcua_exporter/main.go:135-158 | parsing a printed flag gives the mapping back if and only if its names have no comma and no surrounding space |
| NodeFlag.FlagListRoundTrip | e2e/utils/opcua_exporter.go:317-323 | printing a list of nodes and applying the flags contributes just these nodes, in order, if and only if all names are plain |
| NodeFlag.PaddedRoundTrip | cmd/opcua_exporter/main.go:141-147 | space around the fields makes no difference |
| NodeFlag.TrailingTextIgnored | cmd/opcua_exporter/main.go:146-155 | text behind the digits of the bit and behind a third comma is ignored |
| NodeFlag.RefusedExactly | cmd/opcua_exporter/main.go:136-155 | a flag is refused for its form exactly when it has no comma; the second clause is a helper that reads the definition for the other refusal, a third part that is not blank and starts with no number in range |
| NodeFlag.ParsedNamesArePlain | cmd/opcua_exporter/main.go:135-158 | whatever the text, parsed names have no comma and no surrounding space, and the bit is absent or an int |
| NodeFlag.ApplyNodeFlagOverrides | cmd/opcua_exporter/main.go:286-298 | overrides by the flags that parse, in order; the others are skipped |
| NodeFlag.FlagFields | cmd/opcua_exporter/main.go:135-158 | what every text means, by its fields: names trimmed, no bit for a blank third field, the number or an error for another, nothing from a fourth |
| NodeFlag.FlagInPlace | cmd/opcua_exporter/main.go:286-298 | a refused flag leaves no trace wherever it stands, any other contributes itself in its place |
| Text.TrimmedExactly | cmd/opcua_exporter/main.go:141-147 | trimming takes off the 25 space characters at both ends and nothing else |
| NodeEnv.KeysInjective | internal/config/config.go:232-234 | keys of one field are equal only for equal indices |
| NodeEnv.FieldsDiffer | internal/config/config.go:232-234 | keys of different fields are never equal |
| NodeEnv.ParseEnvNodeMappings | internal/config/config.go:229-258 | terminates on every environment, and returns the mappings from index 0 on |
| NodeEnv.MappingsFromIsRun | internal/config/config.go:231-256 | these are the mappings of the longest gap-free run of indices with both names |
| NodeEnv.RunIsParsed | internal/config/config.go:231-256 | and any run that ends at a gap is what is parsed |
| NodeEnv.VariablesRead | internal/config/config.go:229-258 | with the variables spelled out: the fields of mapping i are read from OPCUA_EXPORTER_NODES_i_..., an unreadable bit is none, and the list ends where a name is unset or empty |
| NodeEnv.NodeVariables | e2e/utils/opcua_exporter.go:192-199 | the writer's loop leaves the environment that the list of nodes determines |
| NodeEnv.WrittenAt | e2e/utils/opcua_exporter.go:192-199 | what stands in the three variables of any index after writing |
| NodeEnv.EnvRoundTrip | e2e/utils/opcua_exporter.go:192-199 | writing and parsing gives the list back if and only if no name is empty and the environment before neither continues the list nor supplies a missing bit |
| NodeEnv.FreshEnvRoundTrip | e2e/utils/opcua_exporter.go:185-199 | from the writer's own initial environment: if and only if no name is empty |
| Metrics.Prometheus.Register | internal/metrics/registry.go:46-48 | a name is taken once, and only if it is well formed; gauges stay distinct |
| Metrics.FullNameInjective | internal/metrics/registry.go:37-39 | prefixing keeps metric names apart |
| Metrics.Registry.RegisterNodeMapping | internal/metrics/registry.go:31-68 | names, groups and error as computed on values; handlers stay wired to distinct gauges, old gauges are kept, new ones are fresh and zero |
| Metrics.Registry.CreateFromNodeMappings | internal/metrics/registry.go:76-83 | the same for a list, with the stop at the first error |
| Metrics.BucketIsSubsequence | internal/metrics/registry.go:66 | the bucket of a node is the stable subsequence of the mappings for it |
| Metrics.GroupingIsPartition | internal/metrics/registry.go:66 | keys are exactly the nodes in use, and the buckets together are a permutation of the input |
| Metrics.SucceedsExactly | internal/metrics/registry.go:31-83 | success if and only if names are non-empty, well formed, free and distinct and every bit is absent or an int; then everything is entered |
| Metrics.StopsAtFirstOffender | internal/metrics/registry.go:76-83 | otherwise the mappings before the first offender are entered, and the outcome is that of the offender on top of them |
| Metrics.OffenceExactly | internal/metrics/registry.go:31-54 | and which error that is, with the prefixed name written out |
| Metrics.LeftBehind | internal/metrics/registry.go:46-54 | a failure leaves a name without a handler exactly when the offence is the type of the bit |
| Monitor.HandleMessage | cmd/opcua_exporter/main.go:479-492 | every handler of the node that can convert the value sets its gauge, whatever the others do; all other gauges keep their value |
| Monitor.SetupMonitor | cmd/opcua_exporter/main.go:427-458 | status, message counter, summary history and every gauge after the consumed events |
| Monitor.TimesOutExactly | cmd/opcua_exporter/main.go:449-454 | the timeout error comes at the event where the cumulative count reaches a positive limit, and only there |
| Monitor.StopsExactly | cmd/opcua_exporter/main.go:427-456 | a normal stop comes at the first cancellation if the limit has not been reached before, and the loop runs on exactly when there is neither |
| Monitor.NeverTimesOut | cmd/opcua_exporter/main.go:449-454 | with a limit of zero or less there is no such error |
| Monitor.MessagesDoNotReset | cmd/opcua_exporter/main.go:427-456 | how the loop ends does not depend on the messages at all |
| Monitor.LastConvertible | cmd/opcua_exporter/main.go:433-448 | a gauge shows the last message for its node that its handler could convert, or its initial value |
| Monitor.GaugeShowsLast | cmd/opcua_exporter/main.go:433-448 | a gauge shows x if and only if x is the number or the bit of the last good message for its node that has one, or the initial value and there is none |
| Monitor.MessageCounts | cmd/opcua_exporter/main.go:434-445 | a message adds one to the counters, on its own channel, and nothing if it has failed or is empty |
| Monitor.IncrementsByChannel | cmd/opcua_exporter/main.go:443-445 | a channel gets as many increments as there are good messages for its node |
| Monitor.OnlyUpdatesMatter | cmd/opcua_exporter/main.go:433-448 | other messages make no difference to it |
| Monitor.NegativeBitIsStuck | internal/handlers/opcua_bitvector_handler.go:86-88 | a negative bit never moves its gauge in any run; every other bit can |
| Monitor.CanonicalNamesFire | cmd/opcua_exporter/main.go:480-481 | a handler can move its gauge if and only if its mapping spells the node canonically |
| Monitor.DefaultNamespaceIsStuck | cmd/opcua_exporter/main.go:479-481 | where the server reports ns=0;i=2258 as i=2258, a mapping with the long spelling never moves its gauge and one with the short spelling can |
| Goroutines.TickerDoesNotInterfere | cmd/opcua_exporter/main.go:427-456 | in every interleaving the monitor counts, dispatches and ends as its loop alone would on the same events |
| Goroutines.GaugesUnderInterleaving | cmd/opcua_exporter/main.go:427-456 | in every interleaving a gauge shows the loop's own result on the events before the message in flight, and with that message dispatched it is the result on all events |
| Goroutines.CounterStaysInStep | internal/handlers/summary.go:31-58 | the counter is the replay of its history, and every delivered message is in it once |
| Goroutines.SummarisedInOrder | cmd/opcua_exporter/main.go:443-445 | in every interleaving the increments, with their channels and in order, are those of the loop alone, but for the one about to be made |
| Goroutines.ChannelsAccounted | internal/handlers/summary.go:31-44 | for every node: its good messages = count held for it + discarded for it by Resets + the one about to be counted |
| Goroutines.MessagesConserved | internal/handlers/summary.go:31-74 | delivered messages = current total + discarded by Resets + the one about to be counted |
| Goroutines.TickerAlternates | internal/handlers/summary.go:48-64 | a Reset at the start, then report and Reset in turn |
| Goroutines.TickDiscards | internal/handlers/summary.go:55-57 | a tick discards what it logged plus the increments between log and Reset |
| Goroutines.EveryEventAccounted | internal/handlers/summary.go:48-74 | every delivered message has exactly one fate: logged, lost at start-up, lost in a tick, held, or in flight |
| Goroutines.Execute | cmd/opcua_exporter/main.go:427-456 | gauges, counters and the result of the loop follow the interleaved state under every schedule, after any steps that the ticker made alone |
| Security.GetUserTokenTypeForAuth | internal/security/auth.go:442-471 | the token that the mode stands for, if the endpoint lists it, otherwise the error |
| Security.IsAuthModeSupported | internal/security/auth.go:282-311 | true exactly for endpoints that list the token of the mode |
| Security.EndpointSelector.SelectEndpoint | internal/security/auth.go:167-243 | the partition into exact and compatible matches picks the first endpoint with the wanted property |
| Security.SelectionIsFirst | internal/security/auth.go:184-241 | first exact match in server order, else the first fallback where allowed, and an error exactly when there is neither |
| Security.SelectsAsAsked | internal/security/auth.go:167-257 | with modes, tokens and errors written out: success exactly when an endpoint is asked for or the fallback applies, the first that is asked for wins, and mode and token are the configured ones in any case |
| Security.SelectedSupportsAuth | internal/security/auth.go:360-367 | for a selected endpoint the token lookup succeeds with the token of the mode |
| Security.PolicyMatchExactly | internal/security/auth.go:188-194 | what a policy matches among all URIs of the standard form: names that contain it (for None, that are it or end in it, or the empty URI); among the configurable policies only Basic256 against Basic256Sha256 is inexact |
| Security.ServedPolicy | internal/security/auth.go:184-231 | on servers with the URIs of the configurable policies, the selected endpoint has the configured policy if and only if one is offered in the wanted mode and token and no Basic256Sha256 comes before every Basic256 where Basic256 is asked |
| Security.Basic256TakesSha256 | internal/security/auth.go:188-194 | a request for Basic256 that is served with Basic256Sha256 although Basic256 is offered |
| Connection.AcceptedExactly | internal/connection/manager.go:106-135 | helper, the definitions read in one condition: which settings pass validation |
| Connection.DirectExactly | internal/connection/manager.go:137-143 | accepted settings skip discovery exactly for Anonymous with mode and policy None |
| Connection.NoFallbackAfterDiscovery | internal/connection/manager.go:174-215 | after discovery the fallback is unreachable: selection succeeds exactly when an offered endpoint has the configured mode, policy match and token, and yields the first such |
| Connection.ConnectedAsConfigured | internal/connection/manager.go:38-67 | every connection has the configured mode, policy match and token, and took an answering server |
| Connection.ServedAsConfigured | internal/connection/manager.go:174-215 | the same for every secure connection, where an offer is implied |
| Connection.Manager.Connect | internal/connection/manager.go:37-90 | the client is set exactly when an attempt succeeds before a permanent error, and to the result of the first that does |
| Connection.AttemptsExactly | internal/connection/manager.go:38-67 | in every world: an attempt succeeds if and only if the settings are accepted and, on the direct path, the server connects, on the other also answers with a fitting endpoint and the certificates are usable; with which client; and every other failure of accepted settings is retried |
| Connection.ConnectsExactly | internal/connection/manager.go:37-90 | so the manager connects if and only if some attempt meets such a world and the settings are accepted up to it |
| Connection.OptionsExactly | internal/security/auth.go:314-422 | helper, the definitions read in one condition: when the client options can be made on either path |
| Connection.AcceptedConnectsExactly | internal/security/auth.go:360-422 | accepted settings that need discovery can connect if and only if their certificates are usable; otherwise they are retried in vain |
| Connection.CertificateWithoutFiles | internal/security/auth.go:77-80 | certificate authentication without files is accepted and never connects |
| Exporter.CreateHandlers | cmd/opcua_exporter/main.go:379-383 | the error of registration or none; then every mapping is served by its own fresh gauge under its full name, and the node names are those to subscribe |
| Exporter.StartAndMonitor | cmd/opcua_exporter/main.go:350-389 | the first obstacle if there is one (no mappings, no connection, registration, subscription), and the names taken by then; otherwise the loop's result, the counters and every mapping's gauge at the end of any schedule of monitor and ticker |
| Exporter.RunExporter | cmd/opcua_exporter/main.go:318-389 | the same from file, environment and flags, with the first invalid mapping as a further obstacle |
| Exporter.GaugesOfRun | cmd/opcua_exporter/main.go:427-456 | after such a run every mapping's gauge shows what the loop alone would show for the events dealt with, and the message counter is held, discarded and about to be counted together, in total and for every node |
| Exporter.DisplayedByRun | cmd/opcua_exporter/main.go:353-389 | what can be read off after such a run, with the full metric names, the clock and the conversion written out |
| Exporter.StartsExactly | cmd/opcua_exporter/main.go:353-389 | there is no obstacle if and only if there are mappings, an attempt connects, all (with the clock i=2258 on request) can be registered one beside the other, and the subscription is accepted; otherwise the first of these that fails is named |
| Exporter.NamesLeftExactly | cmd/opcua_exporter/main.go:362-383 | after a start without an obstacle exactly the names of these mappings are taken in addition |
| Exporter.OverridesNeverCollide | internal/metrics/registry.go:37-48 | after any overrides of unique metrics, with any prefix, no name is refused because of another mapping |
| Exporter.TimeNodeCollision | cmd/opcua_exporter/main.go:362-369 | what asking for the server clock does to the outcome of registration, whatever the mappings: an earlier error stays, otherwise its full name is refused exactly when it is malformed, taken, or its metric is used by a mapping or flag |
| Exporter.ValidButRefused | internal/config/config.go:28-41 | helper, the definitions read side by side: of the valid mappings, registration refuses exactly those with a float64 bit |
| Exporter.RefusedBitIsFromFile | internal/metrics/registry.go:51-54 | a start fails over the type of a bit only if the file has a float64 bit and is the source in use |
| Exporter.FloatBitRefused | internal/metrics/registry.go:46-54 | a valid float64 bit is refused after its name has been registered |

## Left out

- OPC UA networking, sessions, subscriptions and reconnection: messages are an arbitrary sequence of events. A closed channel is not part of it.
- The waiting times and the time limit of the retry library: the attempts it allows are a finite list.
- Loading and precedence of scalar settings by viper and pflag, and YAML decoding: the file's mappings are a list.
- Certificate parsing and file access beyond the questions "exists", "loads" and "is RSA".
- Rounding in the conversion to float64: a gauge value is the exact operand of the conversion, so two operands that round alike are kept apart.
- NaN and infinite bits of the float64 type, which validation refuses: a float64 bit is a real number here.
- What encoding/binary does with a Null value is not visible here; the bit handler reports an error for it.
- Values of named integer types, such as StatusCode, which the binary encoder accepts and the value conversion does not.
- Strings that are not valid UTF-8: strings are sequences of code points.
- Overflow of the 64-bit event counters; the counters are unbounded.
- HTTP server, uptime gauge, signals, shutdown, log output other than the summary (the debug flag only adds some) and the wording of errors.
- The other helpers of the end-to-end tests, among them the YAML writer.
- Gauges.Handler.Handle: the two handler structs of the source are one datatype, so a handler of a third kind is not modelled.
- NodeConfig.ValidExactly: the float64 range check is that of a platform where converting an out-of-range float64 to int does not give the same number back.
