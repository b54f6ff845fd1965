/** Policy bundles (internal/bundle/bundle.go): packing a map of policy files into a content
    store and reading it back. */
module Bundle {
  import opened Prelude
  import opened Ordering

  datatype Meta = Meta(bundleName: string, version: string, policyFiles: seq<string>)

  datatype Descriptor = Descriptor(mediaType: string, digest: string, size: nat, title: string)

  // What the store indexes content by.
  datatype Key = Key(mediaType: string, digest: string, size: nat)

  function KeyOf(d: Descriptor): Key {
    Key(d.mediaType, d.digest, d.size)
  }

  const POLICY_MEDIA_TYPE := "application/vnd.assayward.policy.v1+yaml"
  const CONFIG_MEDIA_TYPE := "application/vnd.assayward.policybundle.config.v1+json"

  // The digest function, the JSON form of the metadata and the policy parser.
  datatype Codecs = Codecs(
    digest: bytes -> string,
    writeMeta: Meta -> bytes,
    readMeta: bytes -> Option<Meta>,
    parses: bytes -> bool)

  // The in-memory content store: a second push under the same key is an error.
  class MemoryStore {
    var blobs: map<Key, bytes>

    constructor ()
      ensures blobs == map[]
    {
      blobs := map[];
    }

    method Push(d: Descriptor, content: bytes) returns (ok: bool)
      modifies this
      ensures ok <==> KeyOf(d) !in old(blobs)
      ensures blobs == if ok then old(blobs)[KeyOf(d) := content] else old(blobs)
    {
      ok := KeyOf(d) !in blobs;
      if ok {
        blobs := blobs[KeyOf(d) := content];
      }
    }
  }

  function Describe(codecs: Codecs, name: string, content: bytes): Descriptor {
    Descriptor(POLICY_MEDIA_TYPE, codecs.digest(content), |content|, name)
  }

  function DescribeConfig(codecs: Codecs, meta: Meta): Descriptor {
    var b := codecs.writeMeta(meta);
    Descriptor(CONFIG_MEDIA_TYPE, codecs.digest(b), |b|, "")
  }

  function LayerKey(codecs: Codecs, content: bytes): Key {
    KeyOf(Describe(codecs, "", content))
  }

  // No two files share a store key; in particular no two files have the same content.
  ghost predicate KeysDistinct(codecs: Codecs, policies: map<string, bytes>) {
    forall a, b | a in policies && b in policies && a != b ::
      codecs.digest(policies[a]) != codecs.digest(policies[b]) || |policies[a]| != |policies[b]|
  }

  ghost predicate LayersOf(codecs: Codecs, policies: map<string, bytes>, names: seq<string>, layers: seq<Descriptor>) {
    |layers| == |names| &&
    forall i | 0 <= i < |names| ::
      && names[i] in policies
      && layers[i] == Descriptor("application/vnd.assayward.policy.v1+yaml", codecs.digest(policies[names[i]]),
                                 |policies[names[i]]|, names[i])
  }

  // The descriptor of the metadata's JSON form.
  ghost predicate IsConfig(codecs: Codecs, meta: Meta, config: Descriptor) {
    var b := codecs.writeMeta(meta);
    config == Descriptor("application/vnd.assayward.policybundle.config.v1+json", codecs.digest(b), |b|, "")
  }

  /** What a packed bundle is: one layer per file in strictly increasing name order, the same
      names in the metadata, and every blob in the store. */
  ghost predicate IsPackOf(codecs: Codecs, policies: map<string, bytes>, meta: Meta,
                           blobs: map<Key, bytes>, layers: seq<Descriptor>, config: Descriptor) {
    exists names ::
      && Lists(names, policies.Keys)
      && LayersOf(codecs, policies, names, layers)
      && IsConfig(codecs, meta.(policyFiles := names), config)
      && (forall n | n in policies ::
            LayerKey(codecs, policies[n]) in blobs && blobs[LayerKey(codecs, policies[n])] == policies[n])
      && KeyOf(config) in blobs && blobs[KeyOf(config)] == codecs.writeMeta(meta.(policyFiles := names))
  }

  method SortedNames(policies: map<string, bytes>) returns (names: seq<string>)
    ensures Lists(names, policies.Keys)
  {
    names := [];
    var todo := policies.Keys;
    while todo != {}
      invariant todo <= policies.Keys
      invariant forall i, j | 0 <= i < j < |names| :: names[i] != names[j]
      invariant forall n :: n in names <==> n in policies && n !in todo
      decreases |todo|
    {
      var name :| name in todo;
      todo := todo - {name};
      names := names + [name];
    }
    SortListsTheSet(names, policies.Keys);
    names := StableSort(Self, names);
  }

  // The store holds the layers of the first names and nothing else, each under its own key.
  ghost predicate HoldsLayers(codecs: Codecs, policies: map<string, bytes>, names: seq<string>, blobs: map<Key,
      bytes>) {
    && (forall n | n in names ::
          && n in policies && LayerKey(codecs, policies[n]) in blobs
          && blobs[LayerKey(codecs, policies[n])] == policies[n])
    && (forall k | k in blobs ::
          && k.mediaType == POLICY_MEDIA_TYPE
          && exists n | n in names :: n in policies && LayerKey(codecs, policies[n]) == k)
    && (forall a, b | a in names && b in names && a != b ::
          LayerKey(codecs, policies[a]) != LayerKey(codecs, policies[b]))
  }

  lemma HoldsOneMore(codecs: Codecs, policies: map<string, bytes>, names: seq<string>, name: string,
      before: map<Key, bytes>, after: map<Key, bytes>)
    requires HoldsLayers(codecs, policies, names, before) && name in policies
    requires LayerKey(codecs, policies[name]) !in before
    requires after == before[LayerKey(codecs, policies[name]) := policies[name]]
    ensures HoldsLayers(codecs, policies, names + [name], after)
  {
    hide LayerKey;
    var all := names + [name];
    assert LayerKey(codecs, policies[name]).mediaType == POLICY_MEDIA_TYPE by {
      LayerMediaType(codecs, policies[name]);
    }
    forall k | k in after
      ensures k.mediaType == POLICY_MEDIA_TYPE
              && exists n | n in all :: n in policies && LayerKey(codecs, policies[n]) == k
    {
      if k == LayerKey(codecs, policies[name]) {
        assert name in all;
      } else {
        var n :| n in names && n in policies && LayerKey(codecs, policies[n]) == k;
        assert n in all;
      }
    }
  }

  lemma LayerMediaType(codecs: Codecs, content: bytes)
    ensures LayerKey(codecs, content).mediaType == POLICY_MEDIA_TYPE
  {
  }

  // The layer loop of Pack.
  method PushLayers(codecs: Codecs, policies: map<string, bytes>, names: seq<string>, store: MemoryStore)
    returns (ok: bool, layers: seq<Descriptor>)
    requires Lists(names, policies.Keys) && store.blobs == map[]
    modifies store
    ensures ok <==> KeysDistinct(codecs, policies)
    ensures ok ==> LayersOf(codecs, policies, names, layers) && HoldsLayers(codecs, policies, names, store.blobs)
  {
    hide LayerKey, KeyOf, StrictlySorted, Less, HoldsLayers, KeysDistinct;
    StrictIsSorted(names);
    layers := [];
    HoldsNothing(codecs, policies);
    for i := 0 to |names|
      invariant LayersOf(codecs, policies, names[..i], layers)
      invariant HoldsLayers(codecs, policies, names[..i], store.blobs)
    {
      var name := names[i];
      assert name in names;
      assert names[..i + 1] == names[..i] + [name];
      var desc := Describe(codecs, name, policies[name]);
      assert KeyOf(desc) == LayerKey(codecs, policies[name]) by { KeyIgnoresTitle(codecs, name, policies[name]); }
      ghost var before := store.blobs;
      var pushed := store.Push(desc, policies[name]);
      if !pushed {
        KeyTaken(codecs, policies, names[..i], name, before);
        return false, layers;
      }
      layers := layers + [desc];
      HoldsOneMore(codecs, policies, names[..i], name, before, store.blobs);
    }
    assert names[..|names|] == names;
    HeldKeysDiffer(codecs, policies, names, store.blobs);
    ok := true;
  }

  lemma HoldsNothing(codecs: Codecs, policies: map<string, bytes>)
    ensures HoldsLayers(codecs, policies, [], map[])
  {
  }

  lemma HeldKeysDiffer(codecs: Codecs, policies: map<string, bytes>, names: seq<string>, blobs: map<Key, bytes>)
    requires HoldsLayers(codecs, policies, names, blobs) && forall n | n in policies :: n in names
    ensures KeysDistinct(codecs, policies)
  {
    forall a, b | a in policies && b in policies && a != b
      ensures codecs.digest(policies[a]) != codecs.digest(policies[b]) || |policies[a]| != |policies[b]|
    {
      assert LayerKey(codecs, policies[a]) != LayerKey(codecs, policies[b]);
    }
  }

  lemma KeyIgnoresTitle(codecs: Codecs, name: string, content: bytes)
    ensures KeyOf(Describe(codecs, name, content)) == LayerKey(codecs, content)
  {
  }

  lemma KeyTaken(codecs: Codecs, policies: map<string, bytes>, names: seq<string>, name: string, blobs: map<Key, bytes>)
    requires HoldsLayers(codecs, policies, names, blobs) && name in policies && name !in names
    requires LayerKey(codecs, policies[name]) in blobs
    ensures !KeysDistinct(codecs, policies)
  {
    var other :| other in names && other in policies
                 && LayerKey(codecs, policies[other]) == LayerKey(codecs, policies[name]);
    assert other != name;
  }

  /** Packing succeeds exactly when no two files share a store key. */
  method Pack(codecs: Codecs, policies: map<string, bytes>, meta: Meta)
    returns (ok: bool, store: MemoryStore, layers: seq<Descriptor>, config: Descriptor)
    ensures ok <==> KeysDistinct(codecs, policies)
    ensures ok ==> IsPackOf(codecs, policies, meta, store.blobs, layers, config)
    ensures fresh(store)
  {
    store := new MemoryStore();
    var names := SortedNames(policies);
    ok, layers := PushLayers(codecs, policies, names, store);
    var meta' := meta.(policyFiles := names);
    var configBytes := codecs.writeMeta(meta');
    config := DescribeConfig(codecs, meta');
    if ok {
      ghost var before := store.blobs;
      assert KeyOf(config) !in before by { MediaTypesDiffer(); }
      ok := store.Push(config, configBytes);
      WithConfig(codecs, policies, meta, names, before, store.blobs, layers, config);
    }
  }

  lemma WithConfig(codecs: Codecs, policies: map<string, bytes>, meta: Meta, names: seq<string>,
                   before: map<Key, bytes>, after: map<Key, bytes>, layers: seq<Descriptor>, config: Descriptor)
    requires Lists(names, policies.Keys) && LayersOf(codecs, policies, names, layers)
    requires HoldsLayers(codecs, policies, names, before)
    requires config == DescribeConfig(codecs, meta.(policyFiles := names))
    requires after == before[KeyOf(config) := codecs.writeMeta(meta.(policyFiles := names))]
    requires KeyOf(config) !in before
    ensures IsPackOf(codecs, policies, meta, after, layers, config)
  {
    hide LayerKey, LayersOf, KeyOf;
    forall n | n in policies
      ensures LayerKey(codecs, policies[n]) in after && after[LayerKey(codecs, policies[n])] == policies[n]
    {
      assert n in names;
    }
  }

  lemma MediaTypesDiffer()
    ensures POLICY_MEDIA_TYPE != CONFIG_MEDIA_TYPE
  {
    assert |POLICY_MEDIA_TYPE| == 40;
    assert |CONFIG_MEDIA_TYPE| == 53;
  }

  // --- Pull -------------------------------------------------------------------------------

  datatype Pulled = PullError | Pulled(policies: map<string, bytes>, meta: Meta)

  // The layers read so far: untitled ones are skipped, a missing blob or a file the policy
  // parser rejects is an error.
  ghost function ReadLayers(codecs: Codecs, blobs: map<Key, bytes>,
      layers: seq<Descriptor>): Option<map<string, bytes>> {
    if layers == [] then Some(map[])
    else
      var d := layers[|layers| - 1];
      var earlier := ReadLayers(codecs, blobs, layers[..|layers| - 1]);
      if earlier.None? || d.title == "" then earlier
      else if KeyOf(d) !in blobs || !codecs.parses(blobs[KeyOf(d)]) then None
      else Some(earlier.value[d.title := blobs[KeyOf(d)]])
  }

  ghost function PullOf(codecs: Codecs, blobs: map<Key, bytes>, layers: seq<Descriptor>, config: Descriptor): Pulled {
    if KeyOf(config) !in blobs then PullError
    else
      var meta, policies := codecs.readMeta(blobs[KeyOf(config)]), ReadLayers(codecs, blobs, layers);
      if meta.None? || policies.None? then PullError else Pulled(policies.value, meta.value)
  }

  method Pull(codecs: Codecs, store: MemoryStore, layers: seq<Descriptor>, config: Descriptor) returns (r: Pulled)
    ensures r == PullOf(codecs, store.blobs, layers, config)
  {
    if KeyOf(config) !in store.blobs {
      return PullError;
    }
    var meta := codecs.readMeta(store.blobs[KeyOf(config)]);
    if meta.None? {
      return PullError;
    }
    var policies: map<string, bytes> := map[];
    for i := 0 to |layers|
      invariant ReadLayers(codecs, store.blobs, layers[..i]) == Some(policies)
    {
      assert layers[..i + 1][..i] == layers[..i];
      var name := layers[i].title;
      if name == "" {
        continue;
      }
      if KeyOf(layers[i]) !in store.blobs || !codecs.parses(store.blobs[KeyOf(layers[i])]) {
        ErrorStays(codecs, store.blobs, layers, i + 1);
        return PullError;
      }
      policies := policies[name := store.blobs[KeyOf(layers[i])]];
    }
    assert layers[..|layers|] == layers;
    r := Pulled(policies, meta.value);
  }

  lemma {:induction false} ErrorStays(codecs: Codecs, blobs: map<Key, bytes>, layers: seq<Descriptor>, i: nat)
    requires i <= |layers| && ReadLayers(codecs, blobs, layers[..i]).None?
    ensures ReadLayers(codecs, blobs, layers).None?
    decreases |layers| - i
  {
    if i == |layers| {
      assert layers[..i] == layers;
    } else {
      assert layers[..i + 1][..i] == layers[..i];
      ErrorStays(codecs, blobs, layers, i + 1);
    }
  }

  // --- The round trip ----------------------------------------------------------------------

  ghost predicate AllParse(codecs: Codecs, policies: map<string, bytes>) {
    forall n | n in policies && n != "" :: codecs.parses(policies[n])
  }

  // The files with a title, as a map.
  ghost function Titled(policies: map<string, bytes>, names: seq<string>): map<string, bytes>
    requires forall n | n in names :: n in policies
  {
    map n | n in names && n != "" :: policies[n]
  }

  lemma TitledAppend(policies: map<string, bytes>, names: seq<string>, name: string)
    requires (forall n | n in names :: n in policies) && name in policies
    ensures Titled(policies, names + [name])
         == if name == "" then Titled(policies, names) else Titled(policies, names)[name := policies[name]]
  {
  }

  lemma {:induction false} LayersReadBack(codecs: Codecs, policies: map<string, bytes>, blobs: map<Key, bytes>,
      names: seq<string>, layers: seq<Descriptor>)
    requires LayersOf(codecs, policies, names, layers) && forall n | n in names :: n in policies
    requires forall n | n in policies ::
               LayerKey(codecs, policies[n]) in blobs && blobs[LayerKey(codecs, policies[n])] == policies[n]
    ensures ReadLayers(codecs, blobs, layers) ==
            if forall n | n in names && n != "" :: codecs.parses(policies[n])
            then Some(Titled(policies, names)) else None
  {
    hide LayerKey, Titled;
    if names == [] {
      assert Titled(policies, []) == map[] by { TitledNone(policies); }
    } else {
      var k := |names| - 1;
      var front, name := names[..k], names[k];
      assert names == front + [name];
      assert LayersOf(codecs, policies, front, layers[..k]);
      LayersReadBack(codecs, policies, blobs, front, layers[..k]);
      KeyIgnoresTitle(codecs, name, policies[name]);
      TitledAppend(policies, front, name);
      assert layers[k].title == name;
    }
  }

  lemma TitledNone(policies: map<string, bytes>)
    ensures Titled(policies, []) == map[]
  {
  }

  /** Pulling what was packed: it succeeds exactly when every titled file parses, it then
      returns the files and the metadata with the file list, and it returns all the files
      exactly when none has an empty name. */
  lemma PullInvertsPack(codecs: Codecs, policies: map<string, bytes>, meta: Meta,
                        blobs: map<Key, bytes>, layers: seq<Descriptor>, config: Descriptor)
    requires IsPackOf(codecs, policies, meta, blobs, layers, config)
    requires forall m :: codecs.readMeta(codecs.writeMeta(m)) == Some(m)
    ensures var r := PullOf(codecs, blobs, layers, config);
            && (r.Pulled? <==> AllParse(codecs, policies))
            && (r.Pulled? ==> (r.policies == policies - {""} && Lists(r.meta.policyFiles, policies.Keys)
                               && r.meta == meta.(policyFiles := r.meta.policyFiles)))
            && (r.Pulled? && r.policies == policies <==> AllParse(codecs, policies) && "" !in policies)
  {
    hide ReadLayers, LayersOf, LayerKey, KeyOf, StrictlySorted;
    var names :|
      && Lists(names, policies.Keys)
      && LayersOf(codecs, policies, names, layers)
      && config == DescribeConfig(codecs, meta.(policyFiles := names))
      && KeyOf(config) in blobs && blobs[KeyOf(config)] == codecs.writeMeta(meta.(policyFiles := names));
    LayersReadBack(codecs, policies, blobs, names, layers);
    assert forall n :: n in names <==> n in policies;
    assert Titled(policies, names) == policies - {""};
    assert "" in policies ==> "" !in (policies - {""});
  }

  /** Layers and file list do not depend on the order the map was walked in. */
  lemma PackIsDeterministic(codecs: Codecs, policies: map<string, bytes>, meta: Meta,
                            blobs: map<Key, bytes>, layers: seq<Descriptor>, config: Descriptor,
                            blobs': map<Key, bytes>, layers': seq<Descriptor>, config': Descriptor)
    requires IsPackOf(codecs, policies, meta, blobs, layers, config)
    requires IsPackOf(codecs, policies, meta, blobs', layers', config')
    ensures layers == layers' && config == config'
  {
    var names :|
      Lists(names, policies.Keys) && LayersOf(codecs, policies, names, layers)
          && config == DescribeConfig(codecs, meta.(policyFiles := names));
    var names' :|
      Lists(names', policies.Keys) && LayersOf(codecs, policies, names', layers')
          && config' == DescribeConfig(codecs, meta.(policyFiles := names'));
    ListingIsUnique(names, names', policies.Keys);
  }

  // --- The tag of a reference ----------------------------------------------------------------

  // A colon that starts a tag: some slash stands before it.
  ghost predicate IsTagColon(ref: string, i: int) {
    0 <= i < |ref| && ref[i] == ':' && '/' in ref[..i]
  }

  /** tagFromRef: what follows the last colon behind a slash, else "latest". */
  method TagFromRef(ref: string) returns (tag: string)
    ensures (forall i :: !IsTagColon(ref, i)) ==> tag == "latest"
    ensures forall i | IsTagColon(ref, i) && (forall j | i < j :: !IsTagColon(ref, j)) :: tag == ref[i + 1..]
  {
    var i := |ref| - 1;
    while i >= 0
      invariant -1 <= i < |ref|
      invariant forall j | i < j :: !IsTagColon(ref, j)
    {
      if ref[i] == ':' {
        var hasSlash := false;
        var j := 0;
        while j < i && !hasSlash
          invariant 0 <= j <= i
          invariant hasSlash <==> '/' in ref[..j]
        {
          hasSlash := ref[j] == '/';
          j := j + 1;
        }
        assert j == i ==> ref[..j] == ref[..i];
        if hasSlash {
          assert ref[..j] <= ref[..i];
          assert IsTagColon(ref, i);
          return ref[i + 1..];
        }
      }
      i := i - 1;
    }
    return "latest";
  }

  /** A colon in the registry's port is never taken for the tag's. */
  lemma PortIsNoTag(host: string, port: string, path: string, tag: string)
    requires '/' !in host && '/' !in port && ':' !in path && ':' !in tag
    ensures var ref := host + ":" + port + "/" + path + ":" + tag;
            var i := |ref| - |tag| - 1;
            IsTagColon(ref, i) && ref[i + 1..] == tag && forall j | i < j :: !IsTagColon(ref, j)
    ensures forall i :: !IsTagColon(host + ":" + port + "/" + path, i)
  {
    var base := host + ":" + port;
    var untagged := base + "/" + path;
    var ref := untagged + ":" + tag;
    assert untagged[|base|] == '/';
    assert ref[..|untagged|] == untagged;
    forall j | |untagged| < j ensures !IsTagColon(ref, j) {
      if j < |ref| {
        assert ref[j] == tag[j - |untagged| - 1];
      }
    }
    forall i ensures !IsTagColon(untagged, i) {
      if |base| < i < |untagged| {
        assert untagged[i] == path[i - |base| - 1];
      } else if 0 <= i < |base| {
        assert untagged[..i] <= base;
        assert '/' !in base;
      }
    }
  }
}
