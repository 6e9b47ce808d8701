# EncryptFi configuration helpers, modelled in Dafny

EncryptFi is a confidential-token and staking dApp. Its balance and staking
logic lives in Solidity contracts (ERC7984ETH, ERC7984USDT, EncryptFiStaking)
whose source is not part of this model. What this project models is the
plain logic of the two TypeScript files around them:

- **Environment-value cleaning** (`hardhat.config.ts`). `normalizeEnvValue`
  turns a possibly undefined environment string into its first
  whitespace-free word: `(value ?? "").trim().split(/\s+/)[0] ?? ""`.
  `normalizePrivateKey` maps an empty cleaned value to `undefined`. Any other
  cleaned value gets a `0x` prefix unless it already starts with exactly `0x`.
  Module `EnvConfig` models `trim` and `split(/\s+/)` as total functions on
  `seq<char>`. Both use one whitespace predicate, `IsWhitespace`: the
  ECMAScript WhiteSpace and LineTerminator characters. `undefined` is
  `None` of the `Option` type in module `Wrappers`, and `x ?? d` is
  `GetOr(d)`.
- **In-memory wallet storage** (`ui/src/config/wagmi.ts`). `memoryStore` is
  a `Map<string, string>` that is changed in place by `setItem` and
  `removeItem` and read by `getItem`, which turns a missing entry into
  `null`. Module `MemoryStorage` models it as the class `Storage` with a
  `map<string, string>` field. A ghost `history` records every write, and
  `Valid()` ties the table to a replay of that history. `getItem`'s answer
  is proved equal to `LastWrite`, a reference definition read directly off
  the writes.

The `split` model follows the RegExp split algorithm of ECMA-262 for a
pattern that cannot match the empty string. The empty string gives `[""]`, a
blank string gives `["", ""]`, leading whitespace gives an empty first field
and trailing whitespace an empty last field (`SplitEdgeCases`). Only the
first field is read by the program. Since `split` always returns at least one field, the
`?? ""` after `[0]` never applies. `Split`'s contract (`|fields| >= 1`)
records this.

## Model

| member | source | states |
|---|---|---|
| EnvConfig.Trim | hardhat.config.ts:20 | `trim` returns the slice of the input that starts after the leading whitespace and is followed only by whitespace. It is empty exactly when the input is blank. Otherwise it neither starts nor ends with whitespace. |
| EnvConfig.Split | hardhat.config.ts:20 | `split(/\s+/)` yields at least one field. No field contains whitespace. The first field is the input's longest whitespace-free prefix. |
| EnvConfig.SplitFrom | hardhat.config.ts:20 | The same facts for the fields that start at a given index. This is the recursion behind `Split`. |
| EnvConfig.SplitEdgeCases | hardhat.config.ts:20 | `split(/\s+/)` of `""` is `[""]`; of a blank string `["", ""]`; leading whitespace gives an empty first field and trailing whitespace an empty last field. |
| EnvConfig.SplitFromEndsEmpty | hardhat.config.ts:20 | When the string ends in whitespace, the last field is empty, from any start index. |
| EnvConfig.SplitLosesOnlyWhitespace | hardhat.config.ts:20 | Joining the fields of `split(/\s+/)` gives back the input with only its whitespace removed. |
| EnvConfig.NormalizeEnvValue | hardhat.config.ts:19-21 | The result has no whitespace. It is empty exactly when the value is undefined or consists only of whitespace, so `normalizeEnvValue(undefined)` is `""`. |
| EnvConfig.CleanedIsFirstField | hardhat.config.ts:20 | The cleaned value is the longest whitespace-free prefix of the trimmed value. |
| EnvConfig.FirstWordOfTrimmed | hardhat.config.ts:20 | The longest whitespace-free prefix of the trimmed value is a word of the raw value, found right after its leading whitespace. |
| EnvConfig.EnvValueIsFirstWord | hardhat.config.ts:20 | For a value that is not blank, the result is its first word: a non-empty maximal run of non-whitespace characters (`IsWordAt`). It is a contiguous substring that starts right after the leading whitespace, and the trimmed value starts with it. |
| EnvConfig.WordIsNormal | hardhat.config.ts:20 | A whitespace-free string is cleaned to itself. |
| EnvConfig.NormalizeEnvValueIdempotent | hardhat.config.ts:20 | Cleaning a cleaned value changes nothing. |
| EnvConfig.NormalizePrivateKey | hardhat.config.ts:23-27 | The result is undefined exactly when the cleaned value is empty. A defined result starts with `0x` and has no whitespace. |
| EnvConfig.PrefixedCleanedUnchanged | hardhat.config.ts:24-26 | For any input, a cleaned value that already starts with `0x` is returned unchanged. |
| EnvConfig.UnprefixedCleanedGetsPrefix | hardhat.config.ts:24-26 | For any input, a non-empty cleaned value that does not start with `0x` is returned with exactly one `0x` prepended. |
| EnvConfig.PrefixedWordUnchanged | hardhat.config.ts:24-26 | A whitespace-free key that already starts with `0x` is returned unchanged. |
| EnvConfig.UnprefixedWordGetsPrefix | hardhat.config.ts:24-26 | A non-empty, whitespace-free key that does not start with `0x` gets exactly one `0x` prepended. |
| EnvConfig.UpperCasePrefixIsKept | hardhat.config.ts:26 | The prefix test is case-sensitive: `0X` followed by a word becomes `0x0X` followed by that word. |
| EnvConfig.NormalizePrivateKeyIdempotent | hardhat.config.ts:23-27 | Applying `normalizePrivateKey` to its own result returns that result unchanged, whether it is defined or undefined. |
| MemoryStorage.LastWrite | ui/src/config/wagmi.ts:7-13 | The reference answer for a key is a value only if some `setItem` stored exactly that value under that key. |
| MemoryStorage.ReplayAgreesWithLastWrite | ui/src/config/wagmi.ts:5-13 | For every key, the table built by a sequence of writes answers with the latest write to that key: its value for a set, null for a remove. It answers null when no write touched the key. |
| MemoryStorage.NeverSetIsNull | ui/src/config/wagmi.ts:7 | A key that no `setItem` ever named reads as null. |
| MemoryStorage.EmptyStringIsNotNull | ui/src/config/wagmi.ts:7-10 | A stored `""` reads back as `""`, not null, because `??` replaces only a missing entry. |
| MemoryStorage.Storage.constructor | ui/src/config/wagmi.ts:5 | The store starts empty, with no writes. |
| MemoryStorage.Storage.GetItem | ui/src/config/wagmi.ts:7 | Returns the stored value, or null when the key has no entry. This equals the latest write to the key. It has no `modifies` clause, so it changes nothing. |
| MemoryStorage.Storage.SetItem | ui/src/config/wagmi.ts:8-10 | After `setItem(k, v)`, `getItem(k)` is `v`, overwriting any earlier value. Every other key keeps its answer, and the write is appended to the history. |
| MemoryStorage.Storage.RemoveItem | ui/src/config/wagmi.ts:11-13 | After `removeItem(k)`, `getItem(k)` is null. Every other key keeps its answer. Removing an absent key leaves the table unchanged. |

## Left out

- The Solidity contracts ERC7984ETH, ERC7984USDT and EncryptFiStaking (confidential balances, operator grants, decryption ACL, staking) are not part of this model. Their source is not available, and the test file only drives them through an FHE mock.
- `process.env` reads, `dotenv`, and the Hardhat configuration object built from the cleaned values (hardhat.config.ts outside lines 19-27): these are I/O and static configuration.
- `createConfig`, connectors and the HTTP transport in ui/src/config/wagmi.ts: network plumbing of the wagmi library.
- The React components, the Zama SDK wrapper and the deploy scripts: UI rendering, external libraries and deployment I/O.
- EnvConfig.IsWhitespace: fixes the Unicode "Zs" space separators as of Unicode 15. A JavaScript engine built on another Unicode version may use a slightly different set.
- Strings are modelled as sequences of Unicode scalar values, whereas JavaScript strings are UTF-16 code units; lone surrogates cannot be represented. Every whitespace character lies in the Basic Multilingual Plane and no surrogate is whitespace, so trimming and splitting are unaffected for well-formed strings.
- MemoryStorage.Storage.SetItem: the TypeScript signature guarantees string keys and values, so values of other types passed at run time are not modelled.
