/** `fetchLocalKeys` and `fetchAccounts` (lib/utils.js): the credential
    store is scanned with `readDirR`, the entries are narrowed to one
    network, and the key file paths are indexed by account name. */
module Credentials {
  import opened Wrappers
  import opened Text
  import opened Sequences
  import opened DirTree

  /** The network `fetchLocalKeys` uses when its caller names none. */
  const DefaultKeysNetwork: string := "default"

  /** The text removed from a key file's name to get the account name. */
  const KeyFileExtension: string := ".json"

  /** The leading '.' of ".json" does not recur in it, so an occurrence
      cannot overlap the start of another. */
  lemma ExtensionHeadUnique()
    ensures |KeyFileExtension| == 5 && KeyFileExtension[0] == '.'
    ensures forall k :: 0 < k < |KeyFileExtension| ==> KeyFileExtension[k] != KeyFileExtension[0]
  {
    assert KeyFileExtension == ['.', 'j', 's', 'o', 'n'];
  }

  /** Assigning to this property of a plain object sets its prototype
      instead of adding an entry; a string value is ignored. */
  const ProtoKey: string := "__proto__"

  /** Why a scan throws. */
  datatype Error =
    | MissingCredentialStore  // the store argument is falsy
    | NotFound(path: string)  // `fs.statSync` finds nothing at the store path
    | NotAList(path: string)  // the store is a plain file: `readDirR` returns a string, which has no `filter`

  /** `!credentialStore`: an absent (`undefined`) or empty store path. */
  predicate Falsy(store: Option<string>) {
    store.None? || store.value == ""
  }

  /** The string `RegExp.prototype.test` matches an entry against: a path is
      itself, the empty `Array.prototype` joins to "". */
  function EntryText(e: Entry): string {
    match e
    case Path(p) => p
    case Placeholder => ""
  }

  /** `.filter((entry) => networkFilter.test(entry))`, with the network name
      taken as a literal pattern. */
  function NetworkFilter(es: seq<Entry>, network: string): (r: seq<Entry>)
    ensures IsSubsequence(r, es)
    ensures forall e :: e in r <==> e in es && Contains(EntryText(e), network)
    ensures forall e :: multiset(r)[e] == if Contains(EntryText(e), network) then multiset(es)[e] else 0
  {
    if es == [] then []
    else
      assert es == [es[0]] + es[1..];
      var rest := NetworkFilter(es[1..], network);
      if Contains(EntryText(es[0]), network) then [es[0]] + rest else rest
  }

  /** The paths of `xs` that contain `pat`, in order. */
  function FilterContains(xs: seq<string>, pat: string): (r: seq<string>)
    ensures IsSubsequence(r, xs)
    ensures forall x :: x in r <==> x in xs && Contains(x, pat)
    ensures forall x :: multiset(r)[x] == if Contains(x, pat) then multiset(xs)[x] else 0
  {
    if xs == [] then []
    else
      assert xs == [xs[0]] + xs[1..];
      var rest := FilterContains(xs[1..], pat);
      if Contains(xs[0], pat) then [xs[0]] + rest else rest
  }

  /** The placeholder passes the network test only for the empty network
      name; it is then removed by the `typeof entry == "string"` test. */
  lemma PlaceholderMatchesOnlyEmptyNetwork(network: string)
    ensures Contains(EntryText(Placeholder), network) <==> network == ""
  {
    if network == "" {
      assert OccursAt(network, "", 0);
    }
  }

  /** Dropping the placeholders after the network test keeps the same paths
      as testing the path strings alone. */
  lemma {:induction false} StringsOfNetworkFilter(es: seq<Entry>, network: string)
    ensures Strings(NetworkFilter(es, network)) == FilterContains(Strings(es), network)
  {
    if es != [] {
      StringsOfNetworkFilter(es[1..], network);
      var rest := NetworkFilter(es[1..], network);
      if Contains(EntryText(es[0]), network) {
        assert ([es[0]] + rest)[1..] == rest;
      }
    }
  }

  /** `fetchLocalKeys(credentialStore, network)`, where `found` is what
      `fs.statSync` finds at the store path. */
  function FetchLocalKeys(store: Option<string>, found: Option<Node>, network: string)
    : (r: Result<seq<string>, Error>)
    ensures Falsy(store) <==> r == Failure(MissingCredentialStore)
    ensures !Falsy(store) && found.None? ==> r == Failure(NotFound(store.value))
    ensures !Falsy(store) && found.Some? && found.value.File? ==> r == Failure(NotAList(store.value))
    ensures r.Success? <==> !Falsy(store) && found.Some? && found.value.Dir?
    ensures r.Success? ==>
      var scanned := Strings(ReadDirR(store.value, found.value).entries);
      && IsSubsequence(r.value, scanned)
      && forall x :: x in r.value <==> x in scanned && Contains(x, network)
  {
    if Falsy(store) then Failure(MissingCredentialStore)
    else if found.None? then Failure(NotFound(store.value))
    else
      match ReadDirR(store.value, found.value)
      case Bare(p) => Failure(NotAList(p))
      case Entries(es) =>
        StringsOfNetworkFilter(es, network);
        Success(Strings(NetworkFilter(es, network)))
  }

  /** On a directory, `fetchLocalKeys` returns the leaf file paths below the
      store that contain the network name, in enumeration order. */
  lemma FetchLocalKeysLeaves(store: string, node: Node, network: string)
    requires store != "" && node.Dir?
    ensures FetchLocalKeys(Some(store), Some(node), network)
         == Success(FilterContains(LeafPaths(store, node), network))
  {
    ScanDirectory(store, node);
    StringsOfNetworkFilter(ReadDirR(store, node).entries, network);
  }

  /** In a well-formed store no key file path is returned twice. */
  lemma FetchLocalKeysDistinct(store: string, node: Node, network: string)
    requires store != "" && node.Dir? && WellFormed(node)
    ensures FetchLocalKeys(Some(store), Some(node), network).Success?
    ensures Distinct(FetchLocalKeys(Some(store), Some(node), network).value)
  {
    FetchLocalKeysLeaves(store, node, network);
    LeafPathsDistinct(store, node);
    SubsequenceOfDistinct(FilterContains(LeafPaths(store, node), network), LeafPaths(store, node));
  }

  lemma {:induction false} SubsequenceOfDistinct(xs: seq<string>, ys: seq<string>)
    requires IsSubsequence(xs, ys) && Distinct(ys)
    decreases |ys|
    ensures Distinct(xs)
  {
    if |xs| > 0 {
      if xs[0] == ys[0] && IsSubsequence(xs[1..], ys[1..]) {
        SubsequenceOfDistinct(xs[1..], ys[1..]);
        SubsequenceMembers(xs[1..], ys[1..]);
        assert forall j :: 0 < j < |xs| ==> xs[j] in ys[1..];
      } else {
        SubsequenceOfDistinct(xs, ys[1..]);
      }
    }
  }

  lemma {:induction false} SubsequenceMembers(xs: seq<string>, ys: seq<string>)
    requires IsSubsequence(xs, ys)
    decreases |ys|
    ensures forall x :: x in xs ==> x in ys
  {
    if |xs| > 0 {
      if xs[0] == ys[0] && IsSubsequence(xs[1..], ys[1..]) {
        SubsequenceMembers(xs[1..], ys[1..]);
        assert forall x :: x in xs ==> x == xs[0] || x in xs[1..];
      } else {
        SubsequenceMembers(xs, ys[1..]);
      }
    }
  }

  /** `keyFilePath.split("/").slice(-1)[0].replace(".json", "")`. */
  function AccountName(p: string): string {
    ReplaceFirst(LastSegment(p), KeyFileExtension, "")
  }

  /** A key file named `<id>.json` inside any directory indexes as `id`,
      provided `id` itself holds neither '/' nor ".json". */
  lemma AccountNameOfKeyFile(dir: string, id: string)
    requires '/' !in id && forall i :: !OccursAt(KeyFileExtension, id, i)
    ensures AccountName(JoinPath(dir, id + KeyFileExtension)) == id
  {
    assert id + KeyFileExtension + "" == id + KeyFileExtension;
    AccountNameRemovesFirstOccurrence(dir, id, "");
  }

  /** Only the first ".json" is removed, wherever it is in the name. */
  lemma AccountNameRemovesFirstOccurrence(dir: string, id: string, rest: string)
    requires '/' !in id + KeyFileExtension + rest && forall i :: !OccursAt(KeyFileExtension, id, i)
    ensures AccountName(JoinPath(dir, id + KeyFileExtension + rest)) == id + rest
  {
    var f := id + KeyFileExtension + rest;
    var seg := LastSegment(JoinPath(dir, f));
    JoinThenLastSegment(dir, f);
    ExtensionHeadUnique();
    FirstOccurrenceAfter(id, KeyFileExtension, rest);
    assert AccountName(JoinPath(dir, f)) == ReplaceFirst(seg, KeyFileExtension, "");
  }

  /** A file name without ".json" indexes under its full name. */
  lemma AccountNameWithoutExtension(dir: string, f: string)
    requires '/' !in f && forall i :: !OccursAt(KeyFileExtension, f, i)
    ensures AccountName(JoinPath(dir, f)) == f
  {
    var seg := LastSegment(JoinPath(dir, f));
    JoinThenLastSegment(dir, f);
    assert AccountName(JoinPath(dir, f)) == ReplaceFirst(seg, KeyFileExtension, "");
  }

  /** A pattern with a character the text lacks does not occur in it. */
  lemma AbsentCharacter(s: string, pat: string, k: nat)
    requires k < |pat| && pat[k] !in s
    ensures !Contains(s, pat)
  {
    forall i | 0 <= i && i + |pat| <= |s|
      ensures !OccursAt(pat, s, i)
    {
      assert s[i..i + |pat|][k] == s[i + k];
      assert s[i + k] in s;
    }
  }

  /** `results[account] = keyFilePath` on a plain object. */
  function Assign(m: map<string, string>, account: string, path: string): map<string, string> {
    if account == ProtoKey then m else m[account := path]
  }

  /** Some path in `paths` indexes as `k`. */
  ghost predicate NamedIn(paths: seq<string>, k: string) {
    exists i :: 0 <= i < |paths| && AccountName(paths[i]) == k
  }

  /** `paths[i]` is the last path in `paths` that indexes as `k`. */
  ghost predicate LastNamed(paths: seq<string>, k: string, i: int) {
    && 0 <= i < |paths|
    && AccountName(paths[i]) == k
    && forall j :: i < j < |paths| ==> AccountName(paths[j]) != k
  }

  /** The `reduce` in `fetchAccounts`: every path is stored under its
      account name, a later path overwriting an earlier one. */
  function Index(paths: seq<string>): map<string, string> {
    if paths == [] then map[]
    else
      var last := paths[|paths| - 1];
      Assign(Index(paths[..|paths| - 1]), AccountName(last), last)
  }

  /** The keys of the index are the account names of the paths, except
      `__proto__`, and each maps to the last path with that name. */
  lemma {:induction false} IndexDescribed(paths: seq<string>)
    decreases |paths|
    ensures forall k :: k in Index(paths) <==> k != ProtoKey && NamedIn(paths, k)
    ensures forall k :: k in Index(paths) ==>
      exists i :: LastNamed(paths, k, i) && Index(paths)[k] == paths[i]
  {
    if paths != [] {
      var init := paths[..|paths| - 1];
      var last := paths[|paths| - 1];
      IndexDescribed(init);
      IndexStep(init, last, Index(init));
      assert init + [last] == paths;
    }
  }

  lemma NamedInAppend(init: seq<string>, last: string, k: string)
    ensures NamedIn(init + [last], k) <==> NamedIn(init, k) || AccountName(last) == k
  {
    var paths := init + [last];
    if NamedIn(init, k) {
      var i :| 0 <= i < |init| && AccountName(init[i]) == k;
      assert paths[i] == init[i];
    }
    if AccountName(last) == k {
      assert paths[|init|] == last;
    }
    if NamedIn(paths, k) {
      var i :| 0 <= i < |paths| && AccountName(paths[i]) == k;
      if i < |init| {
        assert paths[i] == init[i];
      }
    }
  }

  lemma LastNamedAppend(init: seq<string>, last: string, k: string, i: int)
    requires AccountName(last) != k
    requires LastNamed(init, k, i)
    ensures LastNamed(init + [last], k, i)
  {
    var paths := init + [last];
    assert paths[i] == init[i];
    forall j | i < j < |paths|
      ensures AccountName(paths[j]) != k
    {
      if j < |init| {
        assert paths[j] == init[j];
      }
    }
  }

  /** One step of the fold keeps the index's description true. */
  lemma IndexStep(init: seq<string>, last: string, m: map<string, string>)
    requires forall k :: k in m <==> k != ProtoKey && NamedIn(init, k)
    requires forall k :: k in m ==> exists i :: LastNamed(init, k, i) && m[k] == init[i]
    ensures var r := Assign(m, AccountName(last), last);
      && (forall k :: k in r <==> k != ProtoKey && NamedIn(init + [last], k))
      && (forall k :: k in r ==> exists i :: LastNamed(init + [last], k, i) && r[k] == (init + [last])[i])
  {
    IndexStepKeys(init, last, m);
    IndexStepValues(init, last, m);
  }

  lemma IndexStepKeys(init: seq<string>, last: string, m: map<string, string>)
    requires forall k :: k in m <==> k != ProtoKey && NamedIn(init, k)
    ensures var r := Assign(m, AccountName(last), last);
      forall k :: k in r <==> k != ProtoKey && NamedIn(init + [last], k)
  {
    var r := Assign(m, AccountName(last), last);
    forall k
      ensures k in r <==> k != ProtoKey && NamedIn(init + [last], k)
    {
      NamedInAppend(init, last, k);
    }
  }

  lemma IndexStepValues(init: seq<string>, last: string, m: map<string, string>)
    requires ProtoKey !in m
    requires forall k :: k in m ==> exists i :: LastNamed(init, k, i) && m[k] == init[i]
    ensures var r := Assign(m, AccountName(last), last);
      forall k :: k in r ==> exists i :: LastNamed(init + [last], k, i) && r[k] == (init + [last])[i]
  {
    var paths := init + [last];
    var name := AccountName(last);
    var r := Assign(m, name, last);
    forall k | k in r
      ensures exists i :: LastNamed(paths, k, i) && r[k] == paths[i]
    {
      if k == name {
        assert paths[|init|] == last;
        assert LastNamed(paths, k, |init|);
      } else {
        var i :| LastNamed(init, k, i) && m[k] == init[i];
        LastNamedAppend(init, last, k, i);
        assert paths[i] == init[i];
      }
    }
  }

  /** `fetchAccounts(credentialStore, network)`, where `found` is what
      `fs.statSync` finds at the store path. */
  function FetchAccounts(store: Option<string>, found: Option<Node>, network: string)
    : (r: Result<map<string, string>, Error>)
    ensures r.Failure? <==> FetchLocalKeys(store, found, network).Failure?
    ensures r.Failure? ==> r.error == FetchLocalKeys(store, found, network).error
  {
    match FetchLocalKeys(store, found, network)
    case Failure(e) => Failure(e)
    case Success(paths) => Success(Index(paths))
  }

  /** When `fetchLocalKeys` returns `paths`, `fetchAccounts` succeeds and
      maps each account name of those paths, except `__proto__`, to one of
      them with that name, and holds no other key. */
  lemma FetchAccountsDescribed(store: Option<string>, found: Option<Node>, network: string, paths: seq<string>)
    requires FetchLocalKeys(store, found, network) == Success(paths)
    ensures FetchAccounts(store, found, network).Success?
    ensures var m := FetchAccounts(store, found, network).value;
      && (forall k :: k in m ==> m[k] in paths && AccountName(m[k]) == k)
      && (forall k :: k in m <==> k != ProtoKey && exists x :: x in paths && AccountName(x) == k)
  {
    IndexDescribed(paths);
    assert forall k :: NamedIn(paths, k) <==> exists x :: x in paths && AccountName(x) == k;
  }

  /** End to end on a directory: the index maps each account name derived
      from a leaf path containing the network name to the last such path. */
  lemma FetchAccountsOnDirectory(store: string, node: Node, network: string)
    requires store != "" && node.Dir?
    ensures FetchAccounts(Some(store), Some(node), network)
         == Success(Index(FilterContains(LeafPaths(store, node), network)))
  {
    FetchLocalKeysLeaves(store, node, network);
  }

  /** With an empty network name the filter keeps every path. */
  lemma {:induction false} EmptyNetworkKeepsAll(xs: seq<string>)
    ensures FilterContains(xs, "") == xs
  {
    if xs != [] {
      assert OccursAt("", xs[0], 0);
      EmptyNetworkKeepsAll(xs[1..]);
    }
  }

  /** With an empty network name every leaf file of the store is indexed. */
  lemma EmptyNetworkIndexesEveryLeaf(store: string, node: Node)
    requires store != "" && node.Dir?
    ensures FetchAccounts(Some(store), Some(node), "") == Success(Index(LeafPaths(store, node)))
  {
    FetchAccountsOnDirectory(store, node, "");
    EmptyNetworkKeepsAll(LeafPaths(store, node));
  }

  /** An empty scan result indexes to an empty map, not an error. */
  lemma NoMatchesGiveEmptyIndex(store: string, node: Node, network: string)
    requires store != "" && node.Dir?
    requires FilterContains(LeafPaths(store, node), network) == []
    ensures FetchAccounts(Some(store), Some(node), network) == Success(map[])
  {
    FetchAccountsOnDirectory(store, node, network);
  }

  /** Two paths with different account names, neither of them the
      prototype key, index to a two-entry map. */
  lemma IndexOfTwo(a: string, b: string, na: string, nb: string)
    requires AccountName(a) == na && AccountName(b) == nb
    requires na != nb && na != ProtoKey && nb != ProtoKey
    ensures Index([a, b]) == map[na := a, nb := b]
  {
    assert [a, b][..1] == [a] && [a][..0] == [];
    assert Index([a]) == Assign(Index([]), na, a);
    assert Index([a, b]) == Assign(Index([a]), nb, b);
  }

  /** The store of the scenario below: `default/alice.json`,
      `default/bob.json` and `other/carol.json` under "creds". */
  function ScenarioStore(): Node {
    Dir("creds", [
      Dir("default", [File("alice.json"), File("bob.json")]),
      Dir("other", [File("carol.json")])])
  }

  lemma ScenarioLeaves()
    ensures LeafPaths("creds", ScenarioStore())
         == ["creds/default/alice.json", "creds/default/bob.json", "creds/other/carol.json"]
  {
    ScenarioTopLeaves();
    ScenarioDefaultLeaves();
    ScenarioOtherLeaves();
  }

  lemma ScenarioTopLeaves()
    ensures LeafPaths("creds", ScenarioStore())
         == ChildLeafPaths("creds/default", [File("alice.json"), File("bob.json")])
          + ChildLeafPaths("creds/other", [File("carol.json")])
  {
    var top := ScenarioStore().children;
    assert JoinPath("creds", "default") == "creds/default";
    assert JoinPath("creds", "other") == "creds/other";
    assert top[1..] == [top[1]] && top[1..][1..] == [];
    assert ChildLeafPaths("creds", top[1..]) == ChildLeafPaths("creds/other", top[1].children);
  }

  lemma ScenarioDefaultLeaves()
    ensures ChildLeafPaths("creds/default", [File("alice.json"), File("bob.json")])
         == ["creds/default/alice.json", "creds/default/bob.json"]
  {
    var cs := [File("alice.json"), File("bob.json")];
    assert JoinPath("creds/default", "alice.json") == "creds/default/alice.json";
    assert JoinPath("creds/default", "bob.json") == "creds/default/bob.json";
    assert cs[1..] == [File("bob.json")] && cs[1..][1..] == [];
  }

  lemma ScenarioOtherLeaves()
    ensures ChildLeafPaths("creds/other", [File("carol.json")]) == ["creds/other/carol.json"]
  {
    assert JoinPath("creds/other", "carol.json") == "creds/other/carol.json";
    assert [File("carol.json")][1..] == [];
  }

  lemma ScenarioFilter()
    ensures FilterContains(["creds/default/alice.json", "creds/default/bob.json", "creds/other/carol.json"], "default")
         == ["creds/default/alice.json", "creds/default/bob.json"]
  {
    assert OccursAt("default", "creds/default/alice.json", 6);
    assert OccursAt("default", "creds/default/bob.json", 6);
    AbsentCharacter("creds/other/carol.json", "default", 2);
  }

  /** The key files of the scenario index under their account names. */
  lemma ScenarioName(dir: string, id: string)
    requires dir == "creds/default/" && (id == "alice" || id == "bob")
    ensures AccountName(dir + id + KeyFileExtension) == id
  {
    var f := id + KeyFileExtension;
    ExtensionHeadUnique();
    assert '/' !in id && '.' !in id by {
      if id == "alice" {
        assert id == ['a', 'l', 'i', 'c', 'e'];
      } else {
        assert id == ['b', 'o', 'b'];
      }
    }
    assert '/' !in f by {
      assert '/' !in KeyFileExtension by { assert KeyFileExtension == ['.', 'j', 's', 'o', 'n']; }
      assert forall c :: c in f ==> c in id || c in KeyFileExtension;
    }
    LastSegmentAfterSlash(dir, f);
    AbsentCharacter(id, KeyFileExtension, 0);
    FirstOccurrenceAfter(id, KeyFileExtension, "");
    assert f + "" == f;
    assert dir + f == dir + id + KeyFileExtension;
  }

  lemma ScenarioIndex()
    ensures Index(["creds/default/alice.json", "creds/default/bob.json"])
         == map["alice" := "creds/default/alice.json", "bob" := "creds/default/bob.json"]
  {
    ScenarioKeyFiles("creds/default/", "creds/default/alice.json", "creds/default/bob.json");
  }

  lemma ScenarioKeyFiles(dir: string, alice: string, bob: string)
    requires dir == "creds/default/"
    requires alice == dir + "alice" + KeyFileExtension && bob == dir + "bob" + KeyFileExtension
    ensures Index([alice, bob]) == map["alice" := alice, "bob" := bob]
  {
    ScenarioName(dir, "alice");
    ScenarioName(dir, "bob");
    IndexOfTwo(alice, bob, "alice", "bob");
  }

  /** Indexing that store for the network "default" finds alice and bob,
      each under its own key file, and leaves carol out. */
  lemma DefaultNetworkScenario()
    ensures FetchAccounts(Some("creds"), Some(ScenarioStore()), "default")
         == Success(map["alice" := "creds/default/alice.json", "bob" := "creds/default/bob.json"])
  {
    ScenarioLeaves();
    ScenarioFilter();
    ScenarioIndex();
    FetchAccountsOnDirectory("creds", ScenarioStore(), "default");
  }

  /** With its default network, `fetchLocalKeys` returns the two key files
      under "default" and leaves carol out. */
  lemma DefaultKeysScenario()
    ensures FetchLocalKeys(Some("creds"), Some(ScenarioStore()), DefaultKeysNetwork)
         == Success(["creds/default/alice.json", "creds/default/bob.json"])
  {
    ScenarioLeaves();
    ScenarioFilter();
    FetchLocalKeysLeaves("creds", ScenarioStore(), DefaultKeysNetwork);
  }
}
