# chain_c: a verified model of its core

chain_c is a C port of a BSV chain layer: byte codecs for addresses, transactions and signing preimages,
Rabin signatures, an identity-revocation oracle and a receipt indexer that walk spend chains, an
authorization broker with rolling-window meters that mirror an on-chain contract, a process-wide rate
limiter, and funding helpers. This project models that logic in Dafny and proves what the code is for.

`dafny verify dfyconfig.toml` checks everything. Each file covers one component:

| file | component | main results |
|---|---|---|
| Base58.dfy | src/bsv/base58.c | encode and decode are mutual inverses on all byte strings and all strings over the alphabet; the fixed buffers never drop a carry |
| Tx.dfy, Codec.dfy | src/bsv/varint.c, src/bsv/tx.c | the parser accepts exactly the serializations, and the two undo each other |
| Sighash.dfy | src/bsv/sighash.c | the BIP 143 preimage commits to everything but the unlocking scripts, or a hash collision is in hand |
| Num2Bin.dfy | src/bsv/num2bin.c | the fixed-width and the minimal integer encoder agree and decode back |
| Utf8.dfy | src/common/utf8.c | accepted exactly when it encodes a (then unique) sequence of Unicode scalar values |
| Charter.dfy | src/json/json.c, src/ricardian_charter.c | canonical charter bytes are injective in prose and binding; key order does not depend on insertion order |
| Rabin.dfy, NumberTheory.dfy | src/crypto/rabin.c | a signing attempt is accepted exactly on squares mod p*q; the padding is the least one; the signer fails to produce a verifiable signature only when none exists |
| Chain.dfy | src/broker/chain_revocation_oracle.c, src/chain/tx_parse.c | over any run of queries and chain growth the caching oracle agrees with a fresh walk and answers truly of the path it watches, which is the identity's exactly for output 0; exactly when it can answer |
| Script.dfy | src/bsv/script.c | script chunks parse uniquely; which scripts are read as receipts |
| SampleChain.dfy | shared | the transactions that failing inputs are built from |
| Indexer.dfy | src/reputation_indexer.c | the forward and the backward walk return the same history; when the forward walk is complete |
| Meter.dfy | src/broker/authorization_envelope.c | spend bounds per tracked window and per arbitrary interval, with a run that reaches the bound |
| KeyBroker.dfy | src/broker/key_broker.c | a latched key is never allowed again; each key is found by its own secret unless a collision is in hand; each key's meter sees a run of its own |
| GatedBroker.dfy | broker and oracle together | with output 0, no allow once the chain has revoked the identity, and exactly when the gate holds at all; exactly which requests are allowed; the spend bound still holds |
| AgentTea.dfy | src/contracts_next/agent_tea.c | exactly when the off-chain meter tracks the contract, and exactly when the daily limit holds; receipts never repeat |
| RateLimiter.dfy | src/chainSources/woc_rate_limiter.c | spacing, mutual exclusion and retry bounds in every interleaving |
| UtxoSelect.dfy | src/chainSources/utxo_select.c | the bottom-up merge sort is the unique stable sort |
| TxChange.dfy | src/bsv/tx_change.c | change settlement conserves value and charges the fee on the serialized length |
| Common.dfy, Numerals.dfy | shared | byte and integer types, positional numerals, little-endian forms |

Modelling conventions. Bytes are integers in 0..255 and transaction ids are 32-byte strings. SHA-256 is a
function parameter with 32-byte results and no injectivity assumption: commitment results say "equal
fields, or these two inputs collide". BIGNUM values are mathematical integers. Code that loops over
buffers or updates handles is written as loops over arrays, or as classes with fields, each proved against
a specification function; the laws are lemmas about those functions. Clocks, random strings, oracle and
chain answers are parameters, so every result is for all of them.

Seven places where the code and an expectation about it part, each with a failing input and the exact
condition:

- The off-chain meter opens its window at its first charge, the contract at time 0. They agree for ever
  exactly when the first allowed charge comes at time 0 or no earlier than one window length
  (`AgentTea.MeterMatchesContract`). The contract's spend stays within its daily limit on every
  continuation exactly when, besides, a first charge in between fills the whole limit at once or its meter
  window outlasts the 64-bit clock (`AgentTea.LimitKeptIff`); for every other first charge
  `AgentTea.OverrunPasses` gives a run that passes the limit.
- The forward receipt walk stops at 5,000,000 hops and still reports success, while the backward walk and
  the oracle report an error at their limits. `Indexer.ForwardCompleteIff` says when the forward list is
  the whole history, and `Indexer.ForwardCutsShort` gives, for every limit and every script the receipt
  reader accepts, a chain on which it is not.
- A signature whose padding passes 4096 bytes is refused by the verifier (`Rabin.SignerComplete`), and then
  no other signature verifies either; `Rabin.SignedButRefused` exhibits a hash, a key and a message for
  which the least padding is 4097.
- The byte-wise division keeps its remainder in 32 bits: it is right for every number exactly when the
  divisor is at most 2^24 (`Rabin.DividesIff`, with `Rabin.WrapsAbove` for the rest). The code divides by 4.
- The oracle saves no progress when it gives up at its hop limit. An identity whose path past the cached
  tip is at least that long is never answered again (`RevocationOracle.StuckForever`);
  `RevocationOracle.QueryAnswersIff` says exactly when a query is answered, and
  `RevocationOracle.StuckHappens` gives, for every limit, a live identity that never is.
- The oracle keeps watching the output number it was set up with on every hop, while the identity is
  recreated at output 0. Its answers are true of the identity, and the broker's gate holds against its
  revocation, exactly when that number is 0 (the default) or the hop limit is at most 1
  (`RevocationOracle.OracleTrueIff`, `GatedBroker.GateHoldsIff`; `RevocationOracle.EndedButLive` is the
  failing ledger). Results below that name a path speak of the path of the watched output.
- An envelope may carry any window duration. The tracked-window bound holds in every run exactly when the
  duration is positive or nothing can be charged at all (`Meter.WindowBoundedIff`).

## Model

| member | source | states |
|---|---|---|
| `Base58.DecodeOfEncode` | src/bsv/base58.c:39-134 | decoding an encoding gives back every byte string, leading zeros included |
| `Base58.EncodeOfDecode` | src/bsv/base58.c:39-134 | every string over the alphabet is the encoding of what it decodes to |
| `Base58.AlphabetMembership` | src/bsv/base58.c:22-37 | the digit lookup is non-negative on exactly the alphabet characters |
| `Base58.AlphabetExactly` | src/bsv/base58.c:22-37 | those are the digits and ASCII letters other than 0, I, O and l, 58 in all, in ASCII order |
| `Base58.EncodeCapacity` | src/bsv/base58.c:50 | len bytes always fit len*138/100+1 base-58 digits |
| `Base58.DecodeCapacity` | src/bsv/base58.c:99 | len base-58 digits always fit slen*733/1000+1 bytes |
| `Base58.NoCarryOut` | src/bsv/base58.c:55-67 | when the product fits the buffer, the carry is spent by the time index 0 is done |
| `Base58.MulAdd` | src/bsv/base58.c:55-67 | the in-place carry loop with its `high` shortcut multiplies the buffer's number and adds the digit; everything left of `high` stays zero |
| `Base58.ToBase58` | src/bsv/base58.c:45-67 | the digit buffer ends up holding the number the bytes denote |
| `Base58.ToBase256` | src/bsv/base58.c:95-117 | the byte buffer ends up holding the number the string denotes; failure exactly on a foreign character |
| `Base58.Encode` | src/bsv/base58.c:39-86 | the loops compute the encoding that the two inverse laws are about |
| `Base58.Decode` | src/bsv/base58.c:88-134 | the loops compute the decoding, EPARSE included |
| `Base58.CheckEncode` | src/bsv/base58.c:136-152 | payload followed by the first four bytes of its double hash, encoded |
| `Base58.CheckDecode` | src/bsv/base58.c:154-177 | EPARSE for a bad or short string, EINTEGRITY for a wrong checksum, otherwise the payload |
| `Base58.CheckedExactly` | src/bsv/base58.c:136-177 | a string check-decodes to a payload if and only if it is that payload's checked encoding |
| `Base58.CheckErrors` | src/bsv/base58.c:154-177 | EPARSE exactly for a foreign character or fewer than four bytes, otherwise EINTEGRITY |
| `Varint.ParseOfPrint` | src/bsv/varint.c:14-102 | reading what was written gives the number and the bytes behind it |
| `Varint.PrintOfParse` | src/bsv/varint.c:49-102 | whatever is read is the shortest form of its value: overlong forms are refused |
| `Varint.VarintCodec` | src/bsv/varint.c:14-102 | both directions together, for every continuation |
| `Varint.PrintLayout` | src/bsv/varint.c:14-47 | one byte below 0xfd, else the marker fd, fe or ff and 2, 4 or 8 little-endian bytes |
| `Varint.Write` | src/bsv/varint.c:14-47 | the byte loops append exactly the CompactSize form |
| `Varint.Read` | src/bsv/varint.c:49-102 | value and length consumed at an offset, or EPARSE, as the parser says, with offsets past the end refused |
| `Transaction.ParseCountedOfPrint` | src/bsv/tx.c:119-182 | a count guard of "at most remaining / least item size" never refuses a list that is really there |
| `Transaction.InputCodec` | src/bsv/tx.c:135-166 | inputs parse back and parse uniquely, previous txid reversed on the wire |
| `Transaction.OutputCodec` | src/bsv/tx.c:184-201 | outputs parse back and parse uniquely |
| `Transaction.DeserializeOfSerialize` | src/bsv/tx.c:96-281 | every transaction parses back from its serialization |
| `Transaction.SerializeOfDeserialize` | src/bsv/tx.c:96-281 | every accepted byte string is the serialization of its parse |
| `Transaction.DeserializeInjective` | src/bsv/tx.c:96-220 | no two byte strings parse to the same transaction |
| `Transaction.SerializeLayout` | src/bsv/tx.c:224-281 | every part at its place: version, input count, inputs, output count, outputs, lock time |
| `Transaction.InputLayout` | src/bsv/tx.c:234-256 | every part of an input at its place, the txid byte-reversed |
| `Transaction.OutputLayout` | src/bsv/tx.c:263-275 | every part of an output at its place |
| `Numerals.LEByte` | src/bsv/tx.c:28-45 | byte i of a little-endian field is the digit of weight 256^i |
| `Transaction.Deserialize` | src/bsv/tx.c:96-220 | the cursor loops return t exactly when the input is the serialization of t, and EPARSE otherwise |
| `Transaction.SerializeTo` | src/bsv/tx.c:224-281 | the append loops add exactly the serialization |
| `Sighash.HashPrevouts` | src/bsv/sighash.c:67-79 | digest of all outpoints in order |
| `Sighash.HashSequence` | src/bsv/sighash.c:81-93 | digest of all sequence numbers in order |
| `Sighash.HashOutputs` | src/bsv/sighash.c:95-112 | digest of all outputs in order |
| `Sighash.BuildPreimage` | src/bsv/sighash.c:116-166 | appends the ten fields in the order of BIP 143, section Specification; EINVAL for a missing input |
| `Sighash.PreimageLayout` | src/bsv/sighash.c:116-166 | every field by byte position, in the order of BIP 143, section Specification |
| `Sighash.PrevoutLayout` | src/bsv/sighash.c:53-79 | the first digest is over 36 bytes an input: reversed txid and output number |
| `Sighash.SequenceLayout` | src/bsv/sighash.c:81-93 | the second is over four bytes an input |
| `Sighash.OutputsLayout` | src/bsv/sighash.c:95-112 | the third is over the outputs back to back: value, script length, script |
| `Sighash.PreimageFields` | src/bsv/sighash.c:116-166 | equal preimages agree on every field, variable-length script included |
| `Sighash.PreimageCommits` | src/bsv/sighash.c:53-166 | equal preimages have equal version, locktime, outpoints, sequences, outputs, amount, script code and type, or exhibit a collision |
| `Sighash.CommitsToIndex` | src/bsv/sighash.c:116-166 | when no outpoint is spent twice, also to which input is signed |
| `Sighash.SighashCommits` | src/bsv/sighash.c:168-184 | the same for the digest that is signed |
| `Sighash.ScriptSigsIrrelevant` | src/bsv/sighash.c:53-166 | the preimage depends on nothing else: unlocking scripts may change freely |
| `Num2Bin.Sized` | src/bsv/num2bin.c:44-89 | succeeds exactly when the magnitude is below 2^(8w-1) (or n = 0 at width 0) and then gives the sign-magnitude bytes |
| `Num2Bin.Minimal` | src/bsv/num2bin.c:91-153 | the result is the sign-magnitude form at the least width that fits |
| `Num2Bin.TopByte` | src/bsv/num2bin.c:68-79 | the top bit test is the range test, and setting the bit adds half the range |
| `Num2Bin.DecodeSignMag` | src/bsv/num2bin.c:24-153 | sign-magnitude bytes read back as n at every width that fits |
| `Num2Bin.SignMagInjective` | src/bsv/num2bin.c:44-89 | at one width, different numbers have different bytes |
| `Num2Bin.MinimalWidth` | src/bsv/num2bin.c:91-153 | the least width is the digit count, plus one when the top bit is taken |
| `Num2Bin.EncodersAgree` | src/bsv/num2bin.c:44-153 | the least width is unique, so the minimal form is determined, and the fixed-width encoder accepts exactly the widths from there up |
| `Utf8.IsValid` | src/common/utf8.c:23-102 | accepts exactly the concatenated encodings of Unicode scalar values (sections 3 and 4 of RFC 3629) |
| `Utf8.EncodingUnique` | src/common/utf8.c:23-102 | that sequence is unique |
| `Utf8.Step` | src/common/utf8.c:33-99 | the branches at one offset recognise the same character as the front function on the rest of the string |
| `Utf8.EncodeOfFront` | src/common/utf8.c:33-99 | each accepted front is the shortest encoding of a scalar value: no overlong forms, surrogates or values past 10FFFF |
| `Utf8.FrontOfEncode` | src/common/utf8.c:33-99 | each encoded scalar value is recognised, whatever follows |
| `CanonicalJson.EscapeString` | src/json/json.c:102-165 | the append loop writes exactly the quoted, escaped string |
| `CanonicalJson.BodyReads` | src/json/json.c:102-165 | a reader for section 7 of RFC 8259 gets every string back from its escapes |
| `CanonicalJson.EscapePrefixFree` | src/json/json.c:102-165 | no escape can be continued into another |
| `CanonicalJson.EscapedEnds` | src/json/json.c:102-165 | an escaped string ends at its closing quote, whatever comes after, and determines its text |
| `CanonicalJson.PrintObjectInjective` | src/json/json.c:185-264 | the printed object determines its members and their order |
| `CanonicalJson.ObjectOneLine` | src/json/json.c:102-264 | no raw newline comes out |
| `CanonicalJson.ArrangementUnique` | src/json/json.c:173-183 | distinct keys have one sorted arrangement |
| `CanonicalJson.BeforeExactly` | src/json/json.c:173-183 | the key order is byte order: the first difference decides, a prefix comes first |
| `CanonicalJson.Canonical` | src/json/json.c:185-264 | EINVAL exactly when some value is not a string, otherwise some key-sorted arrangement of the members is printed |
| `CanonicalJson.OrderIrrelevant` | src/json/json.c:185-264 | for distinct keys the output does not depend on insertion order |
| `RicardianCharter.BindingJsonOf` | src/ricardian_charter.c:379-406 | the six fields come out in key order, a missing one as the empty string |
| `RicardianCharter.ContractBytes` | src/ricardian_charter.c:408-430 | prose, separator, binding and newline are appended |
| `RicardianCharter.BindingLayout` | src/ricardian_charter.c:379-406 | the binding byte for byte, with its six field names, punctuation and no spaces |
| `RicardianCharter.CharterLayout` | src/ricardian_charter.c:408-430 | prose, the separator line spelled out, binding, newline |
| `RicardianCharter.SplitAtLastLine` | src/ricardian_charter.c:408-430 | the last line fixes the binding and the rest the prose, even if the prose contains the separator |
| `RicardianCharter.JsonInjective` | src/ricardian_charter.c:379-406 | equal binding JSON means equal fields |
| `RicardianCharter.CanonicalBytesInjective` | src/ricardian_charter.c:379-430 | canonical bytes are equal if and only if prose and binding are |
| `RicardianCharter.RicardianHashCommits` | src/ricardian_charter.c:432-452 | equal Ricardian hashes mean equal prose and binding, or exhibit a collision |
| `Rabin.RabinHash` | src/crypto/rabin.c:80-126 | six chained blocks read as one little-endian number |
| `Rabin.ExpansionLayout` | src/crypto/rabin.c:80-126 | 384 bytes: a doubled digest of the data, then five of everything before them, read little-endian |
| `Rabin.DivideBytes` | src/crypto/rabin.c:53-70 | the in-place loop, with its 32-bit remainder and 8-bit quotient bytes, is the long division the next rows are about, for every divisor |
| `Rabin.DivSmall` | src/crypto/rabin.c:53-70 | the bytes read back, for every divisor; exactly a / d for divisors up to 2^24 |
| `Rabin.QuotientExact` | src/crypto/rabin.c:53-70 | up to 2^24 the long division of any bytes is the integer quotient |
| `Rabin.WrapsAbove` | src/crypto/rabin.c:60-65 | above 2^24 it is wrong on the bytes of d - 1 followed by a zero |
| `Rabin.DividesIff` | src/crypto/rabin.c:53-70 | it is right on every input if and only if the divisor is at most 2^24 |
| `Rabin.ComputeCrtRoot` | src/crypto/rabin.c:354-417 | the assembled root, with exponents (p+1)/4 and (q+1)/4 from the byte division |
| `Rabin.RootModPrime` | src/crypto/rabin.c:354-417 | x^((p+1)/4) squares to x modulo p whenever x is a square modulo p |
| `Rabin.CrtResidue` | src/crypto/rabin.c:354-417 | the assembled root restricts to the prime root modulo each of p and q |
| `Rabin.AcceptedIffSquare` | src/crypto/rabin.c:354-471 | for distinct primes congruent to 3 mod 4: the squared root equals x if and only if x is a square modulo p*q |
| `Rabin.Attempt` | src/crypto/rabin.c:434-459 | one attempt is accepted exactly when the hash is a square |
| `Rabin.Sign` | src/crypto/rabin.c:419-471 | the returned padding is the least one that makes the hash a square, and s is a root below n |
| `Rabin.Verify` | src/crypto/rabin.c:475-504 | accepts exactly when the padding is in bounds, n is not zero and s squares to the padded hash |
| `Rabin.AcceptedSquares` | src/crypto/rabin.c:475-504 | any signature that verifies, negative s included, shows the padded hash to be a square |
| `Rabin.SignerComplete` | src/crypto/rabin.c:419-504 | the signer's output verifies if and only if its padding is at most 4096, if and only if any signature of the message verifies |
| `Rabin.AnyPaddingHappens` | src/crypto/rabin.c:419-471 | for every k some hash makes k the least padding, for one message and one key |
| `Rabin.SignedButRefused` | src/crypto/rabin.c:419-504 | a hash, key and message whose least padding is 4097, so that no signature verifies |
| `Rabin.NeverSigned` | src/crypto/rabin.c:434-463 | and a hash for which no padding works, so the loop has nothing to stop at |
| `NumberTheory.Fermat` | src/crypto/rabin.c:354-417 | a^(p-1) is 1 modulo a prime p not dividing a, which the modular inverses rest on |
| `RevocationOracle.OneEnd` | src/broker/chain_revocation_oracle.c:163-230 | an identity's path has at most one end |
| `RevocationOracle.NotBoth` | src/broker/chain_revocation_oracle.c:163-230 | no ledger shows an identity both revoked and live |
| `RevocationOracle.RevokedGrows` | src/broker/chain_revocation_oracle.c:43-65 | revocation is permanent under ledger growth |
| `RevocationOracle.WalkSound` | src/broker/chain_revocation_oracle.c:187-223 | a walk whose ledger grows between its own calls still answers truthfully |
| `RevocationOracle.QuerySound` | src/broker/chain_revocation_oracle.c:163-230 | any answer is true of the unbounded path, and the caches stay sound; an error leaves them as they were |
| `Chain.TerminalExactly` | src/chain/tx_parse.c:60-86 | a transaction is terminal if and only if it has no outputs or output 0 is 76 a9 14, 20 bytes, 88 ac |
| `Chain.MalformedNotTerminal` | src/chain/tx_parse.c:60-86 | bytes that are no transaction are not |
| `Chain.PrevoutExactly` | src/chain/tx_parse.c:22-52 | the txid of that input of a real transaction; EPARSE otherwise |
| `RevocationOracle.PaymentRevokes` | src/broker/chain_revocation_oracle.c:203-213 | when the watched output is spent by a payment to a key hash, a query of one hop or more answers revoked and remembers it |
| `RevocationOracle.QueryRemembers` | src/broker/chain_revocation_oracle.c:163-230 | a query remembers a revocation, or the unspent end of the path, or nothing on an error, and touches no other identity |
| `RevocationOracle.CachedRevocation` | src/broker/chain_revocation_oracle.c:170-171 | a remembered revocation is answered whatever the source does |
| `RevocationOracle.FaultPassedOn` | src/broker/chain_revocation_oracle.c:187-201 | a failure of either call is returned as it is |
| `RevocationOracle.RunSound` | src/broker/chain_revocation_oracle.c:43-230 | the caches are sound after every run of queries |
| `RevocationOracle.WalkResumes` | src/broker/chain_revocation_oracle.c:177-187 | a finished walk could have been resumed at any point of its path |
| `RevocationOracle.ResumedAgreesWithFresh` | src/broker/chain_revocation_oracle.c:163-230 | with sound caches a query gives the fresh walk's answer whenever that walk finishes within the limit |
| `RevocationOracle.OracleCorrect` | src/broker/chain_revocation_oracle.c:43-230 | after any run of queries, growth and source failures: agrees with the fresh walk, and answers revoked (live) exactly when the path of the watched output has ended (is unspent at its end) |
| `RevocationOracle.QueryAnswersIff` | src/broker/chain_revocation_oracle.c:163-230 | a query is answered if and only if the identity is cached as revoked or its path from the tip ends within the limit; EHOPLIMIT exactly when that path is at least as long as the limit |
| `RevocationOracle.LiveAnswerIff` | src/broker/chain_revocation_oracle.c:163-230 | with sound caches the answer is "live" if and only if the identity is and its path past the tip is shorter than the limit |
| `RevocationOracle.QueryStuck` | src/broker/chain_revocation_oracle.c:219-229 | a query that meets the limit fails, whatever the ledger adds, and changes no cache |
| `RevocationOracle.StuckForever` | src/broker/chain_revocation_oracle.c:163-230 | in every run, such an identity is never answered again |
| `RevocationOracle.StuckHappens` | src/broker/chain_revocation_oracle.c:163-230 | for every limit, a ledger with a live identity whose query gives up at the limit and is stuck |
| `RevocationOracle.StuckAtDefault` | src/broker/chain_revocation_oracle.c:124-146 | in particular at the default output and limit |
| `RevocationOracle.IdentityAtZero` | src/broker/chain_revocation_oracle.c:174-218 | at output 0 the watched path is the identity's own |
| `RevocationOracle.EndedButLive` | src/broker/chain_revocation_oracle.c:174-218 | for every other output and two hops or more, a ledger on which the identity is revoked and the answer is "live" |
| `RevocationOracle.OracleTrueIff` | src/broker/chain_revocation_oracle.c:163-230 | over every run, the answers are true of the identity recreated at output 0 if and only if the watched output is 0 or the limit is at most 1 |
| `RevocationOracle.WalkLoop` | src/broker/chain_revocation_oracle.c:187-223 | the loop is the bounded walk, ENET and EHOPLIMIT included |
| `RevocationOracle.Oracle.constructor` | src/broker/chain_revocation_oracle.c:124-146 | empty caches; output 0 and 100000 hops unless given |
| `RevocationOracle.Oracle.RevokedHas` | src/broker/chain_revocation_oracle.c:43-49 | membership |
| `RevocationOracle.Oracle.RevokedAdd` | src/broker/chain_revocation_oracle.c:51-65 | appends once |
| `RevocationOracle.Oracle.LiveTipFind` | src/broker/chain_revocation_oracle.c:69-78 | finds the entry or shows there is none |
| `RevocationOracle.Oracle.LiveTipSet` | src/broker/chain_revocation_oracle.c:81-106 | map update; keys stay distinct |
| `RevocationOracle.Oracle.LiveTipDelete` | src/broker/chain_revocation_oracle.c:109-120 | map removal by swapping in the last entry; keys stay distinct |
| `RevocationOracle.Oracle.IsRevoked` | src/broker/chain_revocation_oracle.c:163-230 | answer and new caches are one step of the query that the theorems above are about |
| `ReceiptScript.ChunkCodec` | src/bsv/script.c:22-83 | a chunk and its bytes determine each other, in all four push forms |
| `ReceiptScript.ChunkForms` | src/bsv/script.c:22-72 | which opcodes push what, by number |
| `ReceiptScript.ChunksExactly` | src/bsv/script.c:22-83 | a script parses to some chunks if and only if it is those chunks one after the other |
| `ReceiptScript.ChunksFit` | src/bsv/script.c:171-186 | a chunk array that is too small only ever shows as ERANGE, and one as long as the script never is, so the fallback always settles it |
| `ReceiptScript.ParseScript` | src/bsv/script.c:22-83 | the loop returns the chunks, EPARSE for a push past the end, ERANGE for a full array |
| `ReceiptScript.ReadChunk` | src/bsv/script.c:31-72 | one round of that loop |
| `ReceiptScript.ReadReceiptHash` | src/bsv/script.c:165-204 | the hash, or EPARSE, with the retry on a larger array |
| `ReceiptScript.ReceiptExactly` | src/bsv/script.c:165-204 | read as a receipt for h if and only if the script is the bytes of OP_0, OP_RETURN and further chunks of which the last carries h |
| `ReceiptScript.CarrierReads` | src/bsv/script.c:165-204 | 00 6a 20 and a hash reads as that hash |
| `Indexer.ForwardHistory` | src/reputation_indexer.c:240-343 | on a consistent chain the forward walk returns the receipts of the transactions within its limit, or fails |
| `Indexer.BackwardHistory` | src/reputation_indexer.c:347-468 | on a consistent chain within the limit the reversed backward walk returns all receipts, oldest first, or fails |
| `Indexer.WalksAgree` | src/reputation_indexer.c:240-468 | within both limits the two walks return the same list, or both fail with no list |
| `Indexer.ForwardOkMeans` | src/reputation_indexer.c:240-343 | with nothing assumed of the source: a returned list is the whole list of transactions walked without an error, to the end of the chain or the limit |
| `Indexer.BackwardOkMeans` | src/reputation_indexer.c:347-468 | with nothing assumed of the source: a returned list is the whole list from genesis to the tip |
| `Indexer.BackwardLimit` | src/reputation_indexer.c:373-381 | on a longer chain the backward walk fails with EHOPLIMIT |
| `Indexer.WalkErrors` | src/reputation_indexer.c:263-400 | failures are passed on, and a terminal tip is EPARSE |
| `Indexer.ChainSpends` | src/reputation_indexer.c:263-336 | the chain is spent at the given output first and at output 0 from then on |
| `Indexer.ForwardCompleteIff` | src/reputation_indexer.c:263-342 | the forward list is complete exactly when the chain is within the limit or nothing beyond it carries a receipt |
| `Indexer.ForwardCutsShort` | src/reputation_indexer.c:263-342 | for every limit and every receipt script there is a consistent chain one hop longer, its receipts at output 1, whose last receipt is left out with no error |
| `Indexer.CollectCutsShort` | src/reputation_indexer.c:240-343 | in particular at the limit of 5,000,000, on receipt scripts of the form 00 6a 20 and the hash |
| `Indexer.CollectReceipts` | src/reputation_indexer.c:240-343 | the loop is the forward walk with 5,000,000 hops; any error returns no list |
| `Indexer.CollectReceiptsBackward` | src/reputation_indexer.c:347-468 | the loop, then the reversal, is the reversed backward walk; limit 0 means 100000; any error returns no list |
| `Indexer.FindReceipt` | src/reputation_indexer.c:167-211 | the scan returns the first receipt the next row is about; EPARSE for a malformed transaction |
| `Indexer.FirstReceiptExactly` | src/reputation_indexer.c:181-206 | h is found if and only if some zero-value output reads as a receipt for h and no earlier zero-value output reads as any; none if and only if there is none |
| `Indexer.EntryExactly` | src/reputation_indexer.c:290-330 | what a transaction adds, field by field; a failing time call is passed on |
| `Indexer.MalformedEntry` | src/reputation_indexer.c:167-179 | bytes that are no transaction are EPARSE |
| `Indexer.ReverseInPlace` | src/reputation_indexer.c:456-466 | the swap loop reverses the array |
| `Meter.WindowAccountant.constructor` | src/broker/authorization_envelope.c:86-93 | a new, unstarted meter |
| `Meter.WindowAccountant.ChargeAt` | src/broker/authorization_envelope.c:106-158 | decision and new counters; a denied charge changes nothing |
| `Meter.TrackedWindowBound` | src/broker/authorization_envelope.c:106-158 | whatever the clock does, the charges of one tracked window total at most the window limit |
| `Meter.WindowBoundedIff` | src/broker/authorization_envelope.c:25-158 | that bound holds in every run if and only if the duration is positive or no unit can be charged |
| `Meter.AllowedByHistory` | src/broker/authorization_envelope.c:106-158 | after any run, a charge is allowed if and only if it is positive, within the per-call limit, and fits beside what the history shows for the current window |
| `Meter.ReportByHistory` | src/broker/authorization_envelope.c:97-158 | the reason and both counters that every charge reports, in terms of the history |
| `Meter.CounterIsHistory` | src/broker/authorization_envelope.c:106-158 | the counter is the sum of what was charged in the current window |
| `Meter.IntervalBound` | src/broker/authorization_envelope.c:106-158 | with a clock that never runs back, any half-open interval of one window length sees at most 2*limit-1 |
| `Meter.IntervalBoundReached` | src/broker/authorization_envelope.c:106-158 | for every limit and length of at least two, a run reaches that bound |
| `Meter.RunAppend` | src/broker/authorization_envelope.c:106-158 | a run extended by one request continues from the meter the run left |
| `KeyBroker.Broker.constructor` | src/broker/key_broker.c:181-200 | no keys |
| `KeyBroker.Broker.Issue` | src/broker/key_broker.c:234-315 | ECRYPTO and no key when a random draw fails; otherwise appends an unlatched key with a new meter, keeping only the hash of the secret, and returns the public part and the secret |
| `KeyBroker.OwnSecretFinds` | src/broker/key_broker.c:99-315 | in every run of issues, authorizations and revocations, each key's own secret finds that key, unless two draws coincide or a hash collision is in hand |
| `KeyBroker.AllowedHadSecret` | src/broker/key_broker.c:444-523 | in any run, whatever is allowed on a key presented that key's secret, or a hash collision |
| `KeyBroker.Broker.FindSecret` | src/broker/key_broker.c:99-124 | the first key whose secret hash matches |
| `KeyBroker.Broker.Authorize` | src/broker/key_broker.c:444-523 | the six ordered checks, with the charge report on an over-envelope denial; the keys change only by a latch after an on-chain revocation or by the charged meter |
| `KeyBroker.Broker.RevokeLocally` | src/broker/key_broker.c:527-534 | latches the first key with that id, leaves every other key as it is, and says whether there was one |
| `KeyBroker.LatchedIff` | src/broker/key_broker.c:444-534 | in every run a key is latched if and only if since its issue it was revoked as the first key of its id, or matched while open by a request that met an on-chain revocation |
| `KeyBroker.RevokedThenDenied` | src/broker/key_broker.c:460-534 | after a local revocation every later request that matches the key is denied as revoked |
| `KeyBroker.DeniedExactly` | src/broker/key_broker.c:444-523 | exactly when each reason is given |
| `KeyBroker.SecretLayout` | src/broker/key_broker.c:252-268 | the secret is pk_ and 48 lower-case hexadecimal digits |
| `KeyBroker.NewKeyFields` | src/broker/key_broker.c:282-297 | what a new key holds |
| `KeyBroker.StepKeeps` | src/broker/key_broker.c:234-534 | no event removes a key, changes its identity, envelope or secret, or opens a latch |
| `KeyBroker.MetersMoveOnAllowOnly` | src/broker/key_broker.c:444-523 | a denial moves no meter; an allow moves the matched key's meter and nothing else |
| `KeyBroker.LatchStays` | src/broker/key_broker.c:444-534 | a latch stays through any run |
| `KeyBroker.LatchedNeverAllowed` | src/broker/key_broker.c:444-534 | in any run, a latched key never gets another allow |
| `KeyBroker.MeterOfKey` | src/broker/key_broker.c:234-534 | each key's meter and spend log are exactly a meter run of its own, over the requests that reached it |
| `KeyBroker.KeySpendBound` | src/broker/key_broker.c:444-523 | in any run with an ordered clock, one key spends at most 2*limit-1 in any interval of its window length |
| `GatedBroker.AuthorizeOnChain` | src/broker/key_broker.c:444-523 | broker and oracle handles together take one step of the composed machine; the oracle is asked only about a matched unlatched key |
| `GatedBroker.RunSound` | src/broker/chain_revocation_oracle.c:163-239 | the oracle's caches stay sound in every composed run |
| `GatedBroker.AllowedWhileLive` | src/broker/key_broker.c:471-486 | whatever is allowed is allowed while the path of the watched output is live on some ledger seen during the call |
| `GatedBroker.RevokedNeverAllowed` | src/broker/key_broker.c:471-486 | once the ledger has ended the path of the watched output, no request on a key of that identity is allowed, before or after the latch |
| `GatedBroker.AllowedWhileIdentityLive` | src/broker/key_broker.c:471-486 | watching output 0, or one hop only: allowed only while the identity itself is alive |
| `GatedBroker.EndedAllowed` | src/broker/key_broker.c:471-486 | for every other set-up, a run that allows a request on an identity already revoked at output 0 |
| `GatedBroker.GateHoldsIff` | src/broker/key_broker.c:471-486 | in every run nothing is allowed on a revoked identity, if and only if the watched output is 0 or the limit is at most 1 |
| `GatedBroker.AllowedIff` | src/broker/key_broker.c:444-523 | after any run, on a ledger that stands still: allowed if and only if the secret matches an unlatched key, its identity is live with less than the hop limit of path past the cached tip, the scope is listed and the amount fits the key's history |
| `GatedBroker.BrokerRefined` | src/broker/key_broker.c:444-523 | every composed run is a run of the broker with the oracle's answers filled in |
| `GatedBroker.SpendBoundOnChain` | src/broker/key_broker.c:444-523 | so the spend bound holds with the real oracle in place |
| `AgentTea.CountAndTier` | src/contracts_next/agent_tea.c:80-146 | txCount is the number of actions; after the first, tier is 2 exactly from the threshold on |
| `AgentTea.TierNeverDrops` | src/contracts_next/agent_tea.c:102-146 | the tier of a run is at least that of each of its prefixes |
| `AgentTea.ReceiptPreimage` | src/contracts_next/agent_tea.c:426-461 | appends the 182 bytes; EINVAL exactly for wrong parameter lengths, ERANGE exactly when amount, count or time does not fit its field, with what the buffer then holds |
| `AgentTea.ReceiptLayout` | src/contracts_next/agent_tea.c:426-461 | every field of the 182 bytes at its place |
| `AgentTea.ReceiptsDistinct` | src/contracts_next/agent_tea.c:426-461 | no two actions of a run have the same receipt preimage, whatever they carry |
| `AgentTea.MeterMatchesContract` | src/contracts_next/agent_tea.c:102-146 | the contract fed the allowed charges tracks the meter through the whole run if and only if the first allowed charge is at 0 or not before one window length |
| `AgentTea.SpendWithinLimit` | src/contracts_next/agent_tea.c:102-146 | while they agree, the contract's spend stays within the daily limit |
| `AgentTea.LimitKeptIff` | src/contracts_next/agent_tea.c:102-146 | the contract's spend stays within the daily limit on every continuation, with any clock or an ordered one, if and only if the first allowed charge is at 0, or not before one window length, or positive in time and either the whole limit or with a window past the last 64-bit time |
| `AgentTea.OverrunPasses` | src/contracts_next/agent_tea.c:102-146 | for every other first charge, under any limits, an ordered run passes the daily limit |
| `AgentTea.KeptWithin` | src/contracts_next/agent_tea.c:102-146 | and for each of those no continuation does, whatever the clock |
| `RateLimiter.StepKeepsInv` | src/chainSources/woc_rate_limiter.c:86-131 | every step of every caller keeps the mutex, spacing and log invariants |
| `RateLimiter.Safety` | src/chainSources/woc_rate_limiter.c:86-131 | in every interleaving: one gated call in flight, starts at least 400 ms apart, at most 7 attempts a call, retries only after a 429 of the same call and no sooner than its backoff, which doubles each time |
| `RateLimiter.RetryWaits` | src/chainSources/woc_rate_limiter.c:113-120 | a retry starts at least 1000 * 2^k ms after attempt k, and only after its 429 |
| `RateLimiter.SameCallCounts` | src/chainSources/woc_rate_limiter.c:99-124 | attempts of one call are consecutive starts, numbered one by one |
| `RateLimiter.Limited` | src/chainSources/woc_rate_limiter.c:86-131 | the code of one call, on every path, is a run of that protocol; it stops at the first outcome that is not a 429, or at the seventh |
| `UtxoSelect.StableSortUnique` | src/chainSources/utxo_select.c:60-110 | two sorted lists with the same ties in the same order are equal |
| `UtxoSelect.ReferenceStable` | src/chainSources/utxo_select.c:60-69 | the reference sort is sorted confirmed first, then by descending value, with ties in input order |
| `UtxoSelect.SortPermutes` | src/chainSources/utxo_select.c:72-110 | the sort is a permutation |
| `UtxoSelect.MergeSorted` | src/chainSources/utxo_select.c:91-103 | merging sorted runs gives a sorted run |
| `UtxoSelect.MergeTies` | src/chainSources/utxo_select.c:91-103 | merging keeps left ties before right ties |
| `UtxoSelect.PassSorts` | src/chainSources/utxo_select.c:81-106 | a pass doubles the width of the sorted runs, a short last run included |
| `UtxoSelect.PassTies` | src/chainSources/utxo_select.c:81-106 | a pass moves no tie |
| `UtxoSelect.MergeRuns` | src/chainSources/utxo_select.c:83-103 | the three merge loops write the merge of the two runs |
| `UtxoSelect.MergePass` | src/chainSources/utxo_select.c:82-104 | the inner loop writes one whole pass |
| `UtxoSelect.SortPass` | src/chainSources/utxo_select.c:82-105 | the pass with its copy back, in place |
| `UtxoSelect.StableSort` | src/chainSources/utxo_select.c:72-110 | the array ends up as the unique stable sort of its old contents, for every length |
| `UtxoSelect.Rank` | src/chainSources/utxo_select.c:112-177 | the ranking is that sort of the filtered, mapped input |
| `UtxoSelect.RankingMeans` | src/chainSources/utxo_select.c:60-177 | a permutation of the kept candidates: confirmed first, then larger first, equals in input order |
| `UtxoSelect.RankingOfCoins` | src/chainSources/utxo_select.c:60-177 | over the coins' own height and value: for each value, confirmed or not, exactly the wanted coins in input order; confirmed first, larger first |
| `UtxoSelect.Total` | src/chainSources/utxo_select.c:29-52 | the sum, or ERANGE exactly when a value or the sum is out of range |
| `TxChange.EstimateSize` | src/bsv/tx_change.c:32-99 | the estimate is the length of the serialization |
| `TxChange.SettlementConserves` | src/bsv/tx_change.c:164-219 | on success the seeded total is the sum of the final outputs plus the fee, change kept or removed |
| `TxChange.SettlementExactly` | src/bsv/tx_change.c:189-218 | nothing but outputs changes; what is left after the fee stays at the change output with its script and every other output is as it was; with nothing left that output alone is removed |
| `TxChange.SettlementFails` | src/bsv/tx_change.c:164-206 | fails if and only if the index is out of range, the seed or the others pass the money supply, or too little is left for the fee |
| `TxChange.TxBuffer.SumOthers` | src/bsv/tx_change.c:176-187 | the guarded running sum stops exactly when the other outputs total more than the money supply |
| `TxChange.TxBuffer.RemoveOutput` | src/bsv/tx_change.c:212-218 | the shift removes that output and keeps the order of the rest |
| `TxChange.TxBuffer.UpdateChangeOutput` | src/bsv/tx_change.c:164-219 | the array is settled in place; on every error it is unchanged |

## Left out

- NULL arguments, failed allocation, scrubbing of secrets and constant-time comparison: allocation succeeds and handles are present.
- Hex text: transaction ids, raw transactions and hashes are byte strings, so malformed hex is not a case here.
- size_t overflow in length arithmetic: lengths are unbounded naturals, apart from the 64-bit bounds that the transaction types carry.
- C strings are byte sequences without a terminator inside (`CStr`), or Dafny strings where only equality matters.
- HTTP transport and the WhatsOnChain adapters: the chain source is an append-only ledger with arbitrary failures (oracle) or arbitrary answers (indexer).
- OpenSSL, libsecp256k1, cJSON and AES-GCM: hashes are parameters, BIGNUM is `int`, modular exponentiation is a power and a remainder.
- Floating-point fee formulas and the reputation score: settlement holds for every fee function of size and rate.
- Rabin key generation: the key's primes and their congruence to 3 mod 4 are hypotheses.
- Rabin.Sign: needs some padding to work, because the C loop does not end otherwise; `Rabin.NeverSigned` shows that such a hash exists.
- CanonicalJson.Canonical: the library qsort is not modelled; an insertion sort stands in, and the contract promises only some key-sorted arrangement, which is all that is used.
- KeyBroker.Broker: keys and their meters are values in a sequence field, not shared heap objects; the meter's own in-place form is `Meter.WindowAccountant`.
- KeyBroker.Broker.Issue: the random draws and the clock are inputs; issuing from a chain-validated identity is not part of this model.
- RateLimiter: a clock that never runs back and sleeps that last as long as asked are hypotheses; the message test of the 429 predicate is not reached, as the call passes no message.
- Locking-script construction in the contract modules, the recovery and attestation messages, and the RicardianTea twin of the AgentTea step.
- Charter prose parsing, charter signatures, Merkle folds, difficulty targets, stake floors, provenance prefixes and erasure marks: they would add only easy members.
- ECDSA, ZK modules, file persistence, environment handling and command-line entry points.
