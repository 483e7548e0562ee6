# near-account-utils: credential index and code-hash classifier

A Dafny model of the pure logic in `lib/utils.js` of near-account-utils, a
helper library for NEAR accounts. Two pieces of that file do more than pass
a call on to the NEAR SDK, an HTTP client or the filesystem:

- `hasContract` classifies an account state record by its `code_hash`. The
  all-ones hash means no contract and gives `false`. Any other hash gives
  its first six characters.
- The credential index is built in three stages.
  - `readDirR` flattens a credential directory into a list of paths.
  - `fetchLocalKeys` rejects a falsy store, keeps the entries that match a
    network name, and drops the non-string entries.
  - `fetchAccounts` folds the surviving paths into an account-name → path
    map.

The filesystem is an immutable tree (`DirTree.Node`). The directory
enumeration order is the order of each directory's `children`. What
`fs.statSync` finds at the store path is a parameter, `found: Option<Node>`.
`None` means nothing is there.

Modules:

- `Wrappers`: `Option` and `Result`.
- `Text`: the JavaScript string operations the code uses. These are
  `indexOf`, the literal-pattern `replace`, and the last element of
  `split("/")`.
- `Sequences`: the subsequence and no-duplicates predicates.
- `CodeHash`: `hasContract`.
- `DirTree`: `readDirR`, `path.join`, and the reference definition of a
  tree's leaf file paths.
- `Credentials`: `fetchLocalKeys` and `fetchAccounts`, and end-to-end
  lemmas about them.

Modelling decisions:

- Each directory's list starts with an `Array.prototype` object. It is the
  `Placeholder` entry. `RegExp.prototype.test` turns it into the empty
  string. So it passes the network test only when the network name is
  empty, and the `typeof entry == "string"` filter removes it after that.
- The network `RegExp` is a literal substring test (`Text.Contains`). For
  a plain network name the two agree.
- The map is a JavaScript object. In JavaScript, `results["__proto__"] = path`
  changes nothing, because the `__proto__` setter ignores strings. The
  model's `Assign` skips that key (`Credentials.ProtoKey`).
- A failing call returns a `Result` with one of three errors:
  - a falsy store gives `MissingCredentialStore`, the "Missing entry level
    folder" error;
  - a store path with nothing at it gives `NotFound`, the throw from
    `fs.statSync`;
  - a store that is a plain file gives `NotAList`. In that case `readDirR`
    returns the bare path string, and calling `.filter` on it throws a
    `TypeError`.
- Every modelled operation takes the network explicitly. The default of
  `fetchLocalKeys` is the constant `Credentials.DefaultKeysNetwork`
  ("default"). The default of `fetchAccounts` ("testnet") is not a
  constant of the model.
- The account name is not the file's basename minus a `.json` suffix.
  The code removes the first ".json" anywhere in the last path segment,
  so `a.json.bak` indexes as `a.bak` and `a.json.json` as `a.json`.
- Besides the path strings, the scan yields one placeholder object per
  directory.

## Model

| member | source | states |
|---|---|---|
| CodeHash.HasContract | lib/utils.js:51-57 | `false` (NoContract) exactly when `code_hash` is the all-ones hash. Otherwise the result is the prefix of the hash of length min(6, length of the hash). |
| CodeHash.NoContractHashShape | lib/utils.js:52 | The no-contract hash is exactly 32 characters, all '1'. |
| CodeHash.HasContractExamples | lib/utils.js:51-57 | The all-ones hash gives `false`. "abcdef0123456789" gives "abcdef". A hash shorter than six characters comes back whole. |
| Text.IndexOfFrom | lib/utils.js:101 | `indexOf` from position k returns an occurrence of the pattern at or after k, with no earlier one from k. It returns none only when nothing occurs from k. |
| Text.IndexOf | lib/utils.js:101 | The result is the earliest occurrence of the pattern, or none when the pattern does not occur. |
| Text.ContainsMeansOccurs | lib/utils.js:114-117 | A literal network pattern matches a path exactly when it occurs in it somewhere. |
| Text.ReplaceFirstSpec | lib/utils.js:101 | `replace` with a string pattern changes nothing when the pattern is absent. Otherwise it splices the replacement over the earliest occurrence only. |
| Text.LastSegment | lib/utils.js:101 | The last element of `split("/")` has no '/', is a suffix of the path, and is either the whole path or preceded by a '/'. |
| Text.LastSegmentAfterSlash | lib/utils.js:101 | After an empty prefix or one ending in '/', the last segment is exactly the '/'-free rest. |
| Text.FirstOccurrenceAfter | lib/utils.js:101 | In x + ".json" + y, where x has no ".json", the first ".json" is the one after x. Removing it gives x + y. |
| DirTree.JoinPath | lib/utils.js:124 | `path.join(dir, f)` ends with f. When dir is empty the result is f itself. Otherwise it starts with dir and has a '/' right before f. A '/' is added only when dir does not already end in one, so the length is fixed in both cases. |
| DirTree.JoinThenLastSegment | lib/utils.js:124 | Taking the last segment of a joined path gives back the entry name. |
| DirTree.ReadDirR | lib/utils.js:122-126 | A plain file gives its bare path and a directory gives a list. The list always starts with the placeholder. |
| DirTree.ScanYieldsLeaves | lib/utils.js:122-126 | At any depth, the string entries of a scan are exactly the tree's leaf file paths in enumeration order. The placeholders number one per directory. |
| DirTree.ScanDirectory | lib/utils.js:122-126 | On a directory the scan is a list. Its strings are the leaf paths below it and its placeholder count is its directory count. |
| DirTree.ScanEmptyDirectory | lib/utils.js:124 | An empty directory yields its placeholder and nothing else. |
| DirTree.UnderOneSibling | lib/utils.js:124 | A path below one directory entry is never below a differently named sibling. |
| DirTree.LeavesUnder | lib/utils.js:122-126 | Every leaf path found by the scan lies below the scanned path. |
| DirTree.LeafPathsDistinct | lib/utils.js:122-126 | In a tree whose sibling names are valid and distinct, no leaf path appears twice. |
| Credentials.NetworkFilter | lib/utils.js:117 | The network filter keeps an order-preserving subsequence. An entry is kept exactly when its text contains the network name, and every copy of it is kept (multiplicities carry over). |
| Credentials.FilterContains | lib/utils.js:117 | The same filter on path strings: an order-preserving subsequence holding exactly the paths that contain the pattern, each as often as in the input. |
| Credentials.PlaceholderMatchesOnlyEmptyNetwork | lib/utils.js:114-118 | The placeholder passes the network test exactly when the network name is empty. |
| Credentials.StringsOfNetworkFilter | lib/utils.js:116-118 | Network-filtering the entries and then dropping non-strings gives the same list as filtering the path strings directly. |
| Credentials.FetchLocalKeys | lib/utils.js:109-119 | A falsy store gives the missing-store error, whatever is on disk. A missing path gives NotFound and a plain file gives NotAList. A directory succeeds. The result is an order-preserving subsequence of the scan's path strings, holding exactly those that contain the network name. |
| Credentials.FetchLocalKeysLeaves | lib/utils.js:109-126 | On a directory, the result is the leaf file paths containing the network name, in enumeration order. |
| Credentials.FetchLocalKeysDistinct | lib/utils.js:116-126 | On a well-formed store no path is returned twice. |
| Credentials.AccountNameOfKeyFile | lib/utils.js:101 | A key file `<id>.json` in any directory indexes as `id`, when `id` has neither '/' nor ".json". |
| Credentials.AccountNameRemovesFirstOccurrence | lib/utils.js:101 | Only the first ".json" of the file name is removed, wherever it is: `<id>.json<rest>` indexes as `<id><rest>`. |
| Credentials.AccountNameWithoutExtension | lib/utils.js:101 | A file name without ".json" indexes under the whole name. |
| Credentials.IndexDescribed | lib/utils.js:99-106 | The map's keys are exactly the account names of the paths, except `__proto__`. Each key maps to the last path with that name (last write wins). |
| Credentials.IndexStep | lib/utils.js:100-104 | One step of the fold keeps the description of the index true. |
| Credentials.IndexOfTwo | lib/utils.js:99-106 | Two paths with different account names give a map with exactly those two entries. |
| Credentials.FetchAccounts | lib/utils.js:98-107 | Fails exactly when `fetchLocalKeys` fails, with the same error. |
| Credentials.FetchAccountsDescribed | lib/utils.js:98-107 | When `fetchLocalKeys` returns a list of paths, `fetchAccounts` succeeds. Each key maps to one of those paths whose account name is that key. The keys are exactly the names of those paths, except `__proto__`. |
| Credentials.FetchAccountsOnDirectory | lib/utils.js:98-126 | On a directory, the result is the index of the leaf paths that contain the network name. |
| Credentials.EmptyNetworkKeepsAll | lib/utils.js:114-117 | An empty network name keeps every path. |
| Credentials.EmptyNetworkIndexesEveryLeaf | lib/utils.js:98-126 | With an empty network name every leaf file of the store is indexed. |
| Credentials.NoMatchesGiveEmptyIndex | lib/utils.js:98-106 | When no path matches the network, the result is an empty map and not an error. |
| Credentials.DefaultNetworkScenario | lib/utils.js:98-126 | Take a store holding default/alice.json, default/bob.json and other/carol.json. With the network "default" the result is {alice, bob}, each mapped to its own file. |
| Credentials.DefaultKeysScenario | lib/utils.js:109-126 | With its default network "default", `fetchLocalKeys` on the same store returns the two key files under default/, in order, and leaves carol out. |

## Left out

- `getConfig`, `DEFAULT_CONFIG`: these load a module from the working
  directory and read the `NEAR_ENV` environment variable, which is process
  I/O.
- `isValid`, `fetchStorage`: these make asynchronous JSON-RPC calls over
  HTTP and swallow errors. The RPC URL choice is a plain string
  concatenation.
- `fetchState`, `fetchAccessKeys`: the behaviour belongs to the
  near-api-js SDK, including `formatNearAmount`.
- `keysFromString`, `publicKeyFromPrivate`, `publicKeyFromFile`: Ed25519
  key decoding inside the SDK.
- `privateKeyFromFile`: a thin wrapper over `fs.readFileSync` and
  `JSON.parse`.
- Credentials.NetworkFilter: the network is matched as a literal
  substring. JavaScript regular-expression syntax in a network name
  (metacharacters, anchors) is not modelled.
- DirTree.JoinPath: only the empty directory and the trailing-'/' case of
  `path.join` are modelled. Its other normalisation (".", "..", repeated
  slashes) is not, so store paths are taken as already normal.
- Credentials.Falsy: the store is a string or absent. Other falsy
  JavaScript values (`null`, `0`, `false`) behave like an absent store and
  are not modelled separately.
- CodeHash.HasContract: `code_hash` is always a string. A record without
  one, which makes the source throw a `TypeError`, is not modelled. The six
  characters of the fingerprint are counted in Unicode scalar values, not
  in the UTF-16 code units `substring` counts. The two differ only for
  characters outside the Basic Multilingual Plane, which a base58 hash
  never holds.
- The real filesystem, including symbolic links, permission errors partway
  through a scan, and the OS's enumeration order. `statSync` and
  `readdirSync` are replaced by the tree datatype.
- JavaScript object key order: the index is a Dafny `map`, which has no
  order.
