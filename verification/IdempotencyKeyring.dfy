/** Loading the keyring from its configured pairs of label and material. */
module IdempotencyKeyring {
  import opened Common
  import opened Utf8
  import opened IdempotencyModel

  // ---- labels -------------------------------------------------------------------------------

  predicate Alphanumeric(c: CodePoint) { 48 <= c <= 57 || 65 <= c <= 90 || 97 <= c <= 122 }

  /** A letter or digit, then up to 63 letters, digits, dots, underscores and dashes. */
  predicate LabelSyntax(text: Text) {
    && 1 <= |text| <= 64 && Alphanumeric(text[0])
    && forall c | c in text :: Alphanumeric(c) || c in {45, 46, 95}
  }

  /** The spelling of a label, one character and then up to 63: a label that starts with a dot, an underscore or a dash
      is refused, and so is any other character anywhere. */
  lemma LabelsSpelled(text: Text)
    ensures LabelSyntax(text) <==> exists first: CodePoint, rest: Text ::
      && text == [first] + rest && |rest| < 64
      && ('a' as int <= first <= 'z' as int || 'A' as int <= first <= 'Z' as int || '0' as int <= first <= '9' as int)
      && forall c | c in rest ::
           || 'a' as int <= c <= 'z' as int || 'A' as int <= c <= 'Z' as int || '0' as int <= c <= '9' as int
           || c == '.' as int || c == '_' as int || c == '-' as int
  {
    if LabelSyntax(text) {
      assert text == [text[0]] + text[1..];
      assert forall c | c in text[1..] :: c in text;
    }
  }

  /** The order of strings: by their first different code point. */
  predicate Less(a: Text, b: Text) {
    b != [] && (a == [] || a[0] < b[0] || (a[0] == b[0] && Less(a[1..], b[1..])))
  }

  lemma {:induction false} LessIsLexicographic(a: Text, b: Text)
    ensures Less(a, b) <==> a < b || exists i | 0 <= i < |a| && i < |b| :: a[..i] == b[..i] && a[i] < b[i]
    decreases |a|
  {
    if a != [] && b != [] && a[0] == b[0] {
      LessIsLexicographic(a[1..], b[1..]);
      assert a == [a[0]] + a[1..] && b == [b[0]] + b[1..];
      if i :| 0 <= i < |a[1..]| && i < |b[1..]| && a[1..][..i] == b[1..][..i] && a[1..][i] < b[1..][i] {
        assert a[..i + 1] == [a[0]] + a[1..][..i] && b[..i + 1] == [b[0]] + b[1..][..i];
        assert a[i + 1] < b[i + 1];
      }
      if i :| 0 <= i < |a| && i < |b| && a[..i] == b[..i] && a[i] < b[i] {
        assert a[1..][..i - 1] == a[..i][1..] && b[1..][..i - 1] == b[..i][1..];
        assert a[1..][i - 1] < b[1..][i - 1];
      }
    } else if a != [] && b != [] {
      assert a[..0] == b[..0];
      assert forall i | 0 < i < |a| && i < |b| :: a[..i][0] != b[..i][0];
    }
  }

  lemma {:induction false} LessIsStrict(a: Text)
    ensures !Less(a, a)
  {
    if a != [] { LessIsStrict(a[1..]); }
  }

  lemma {:induction false} LessIsTotal(a: Text, b: Text)
    ensures a == b || Less(a, b) || Less(b, a)
  {
    if a != [] && b != [] && a[0] == b[0] {
      LessIsTotal(a[1..], b[1..]);
      assert a[1..] == b[1..] ==> a == [a[0]] + a[1..] == b;
    }
  }

  lemma {:induction false} LessIsTransitive(a: Text, b: Text, c: Text)
    requires Less(a, b) && Less(b, c)
    ensures Less(a, c)
  {
    if a != [] && a[0] == b[0] == c[0] { LessIsTransitive(a[1..], b[1..], c[1..]); }
  }

  // ---- sorting by label ---------------------------------------------------------------------

  predicate InLabelOrder(keys: seq<KeyVersion>) {
    forall i, j | 0 <= i < j < |keys| :: Less(keys[i].version.text, keys[j].version.text)
  }

  predicate LabelsApart(keys: seq<KeyVersion>) {
    forall i, j | 0 <= i < j < |keys| :: keys[i].version != keys[j].version
  }

  lemma OrderedAreApart(keys: seq<KeyVersion>)
    requires InLabelOrder(keys)
    ensures LabelsApart(keys)
  {
    hide Less;
    forall i, j | 0 <= i < j < |keys| ensures keys[i].version != keys[j].version {
      LessIsStrict(keys[i].version.text);
    }
  }

  lemma InsertedInOrder(sorted: seq<KeyVersion>, key: KeyVersion, i: nat)
    requires InLabelOrder(sorted) && i <= |sorted|
    requires i > 0 ==> Less(sorted[i - 1].version.text, key.version.text)
    requires i < |sorted| ==> Less(key.version.text, sorted[i].version.text)
    ensures InLabelOrder(sorted[..i] + [key] + sorted[i..])
  {
    hide Less;
    var longer := sorted[..i] + [key] + sorted[i..];
    forall a | 0 <= a < i ensures Less(sorted[a].version.text, key.version.text) {
      if a < i - 1 { LessIsTransitive(sorted[a].version.text, sorted[i - 1].version.text, key.version.text); }
    }
    forall b | i <= b < |sorted| ensures Less(key.version.text, sorted[b].version.text) {
      if i < b { LessIsTransitive(key.version.text, sorted[i].version.text, sorted[b].version.text); }
    }
    forall a, b | 0 <= a < b < |longer| ensures Less(longer[a].version.text, longer[b].version.text) {
      assert longer[a] == if a < i then sorted[a] else if a == i then key else sorted[a - 1];
      assert longer[b] == if b < i then sorted[b] else if b == i then key else sorted[b - 1];
    }
  }

  lemma InsertedMembers(sorted: seq<KeyVersion>, key: KeyVersion, i: nat)
    requires i <= |sorted|
    ensures forall k :: k in sorted[..i] + [key] + sorted[i..] <==> k in sorted || k == key
  {
    assert sorted == sorted[..i] + sorted[i..];
  }

  method Insert(sorted: seq<KeyVersion>, key: KeyVersion) returns (longer: seq<KeyVersion>)
    requires InLabelOrder(sorted) && forall k | k in sorted :: k.version != key.version
    ensures InLabelOrder(longer) && |longer| == |sorted| + 1
    ensures forall k :: k in longer <==> k in sorted || k == key
  {
    hide InLabelOrder;
    hide Less;
    var i := 0;
    while i < |sorted| && Less(sorted[i].version.text, key.version.text)
      invariant 0 <= i <= |sorted|
      invariant i > 0 ==> Less(sorted[i - 1].version.text, key.version.text)
    {
      i := i + 1;
    }
    if i < |sorted| {
      assert sorted[i] in sorted;
      LessIsTotal(sorted[i].version.text, key.version.text);
    }
    InsertedInOrder(sorted, key, i);
    InsertedMembers(sorted, key, i);
    longer := sorted[..i] + [key] + sorted[i..];
  }

  /** sorted by label, of keys whose labels differ. */
  method SortByLabel(keys: seq<KeyVersion>) returns (sorted: seq<KeyVersion>)
    requires LabelsApart(keys)
    ensures InLabelOrder(sorted) && |sorted| == |keys| && forall k :: k in sorted <==> k in keys
  {
    sorted := [];
    for i := 0 to |keys|
      invariant InLabelOrder(sorted) && |sorted| == i
      invariant forall k :: k in sorted <==> k in keys[..i]
    {
      assert keys[..i + 1] == keys[..i] + [keys[i]];
      sorted := Insert(sorted, keys[i]);
    }
    assert keys[..|keys|] == keys;
  }

  // ---- the configuration --------------------------------------------------------------------

  /** A configured key; the material is None when it does not decode. */
  datatype RawKey = RawKey(version: Label, material: Option<Bytes>)

  predicate WellFormed(raw: RawKey) {
    LabelSyntax(raw.version.text) && raw.material.Some? && |raw.material.value| == 32
  }

  /** Labels and materials are distinct and well-formed, and the active version is among the labels. */
  predicate Loadable(raws: seq<RawKey>, active: Label) {
    && (forall raw | raw in raws :: WellFormed(raw))
    && (forall i, j | 0 <= i < j < |raws| :: raws[i].version != raws[j].version && raws[i].material != raws[j].material)
    && exists raw | raw in raws :: raw.version == active
  }

  /** Grows the set of labels, as the pair parser does; a repeated label is refused. */
  method DistinctLabels(raws: seq<RawKey>) returns (ok: bool)
    ensures ok <==> forall i, j | 0 <= i < j < |raws| :: raws[i].version != raws[j].version
  {
    var labels: set<Label> := {};
    for i := 0 to |raws|
      invariant labels == set j | 0 <= j < i :: raws[j].version
      invariant forall j, k | 0 <= j < k < i :: raws[j].version != raws[k].version
    {
      if raws[i].version in labels { return false; }
      labels := labels + {raws[i].version};
    }
    return true;
  }

  method DistinctMaterials(keys: seq<KeyVersion>) returns (ok: bool)
    ensures ok == DifferentMaterials(keys)
  {
    var materials: set<Bytes> := {};
    for i := 0 to |keys|
      invariant materials == set j | 0 <= j < i :: keys[j].material
      invariant forall j, k | 0 <= j < k < i :: keys[j].material != keys[k].material
    {
      if keys[i].material in materials { return false; }
      materials := materials + {keys[i].material};
    }
    return true;
  }

  /** The keys decode the configured pairs, one for one. */
  predicate Decodes(raws: seq<RawKey>, keys: seq<KeyVersion>) {
    && |keys| == |raws|
    && forall i | 0 <= i < |raws| ::
         WellFormed(raws[i]) && keys[i] == KeyVersion(raws[i].version, raws[i].material.value)
  }

  predicate DifferentMaterials(keys: seq<KeyVersion>) {
    forall i, j | 0 <= i < j < |keys| :: keys[i].material != keys[j].material
  }

  lemma MaterialsDecoded(raws: seq<RawKey>, keys: seq<KeyVersion>)
    requires Decodes(raws, keys)
    ensures DifferentMaterials(keys) <==> forall i, j | 0 <= i < j < |raws| :: raws[i].material != raws[j].material
    ensures forall raw | raw in raws :: WellFormed(raw)
  {
    forall i, j | 0 <= i < j < |raws|
      ensures keys[i].material == keys[j].material <==> raws[i].material == raws[j].material
    {
      assert WellFormed(raws[i]) && WellFormed(raws[j]);
    }
  }

  lemma ActiveDecoded(raws: seq<RawKey>, keys: seq<KeyVersion>, active: Label)
    requires Decodes(raws, keys)
    ensures FindKey(keys, active).Some? <==> exists raw | raw in raws :: raw.version == active
  {
    hide FindKey;
    hide WellFormed;
    if FindKey(keys, active).Some? {
      var i :| 0 <= i < |keys| && keys[i] == FindKey(keys, active).value;
      assert raws[i] in raws;
    }
    if raw :| raw in raws && raw.version == active {
      var i :| 0 <= i < |raws| && raws[i] == raw;
      assert keys[i] in keys;
    }
  }

  lemma LoadableWhenDecoded(raws: seq<RawKey>, keys: seq<KeyVersion>, active: Label)
    requires Decodes(raws, keys) && forall i, j | 0 <= i < j < |raws| :: raws[i].version != raws[j].version
    ensures Loadable(raws, active) <==> DifferentMaterials(keys) && FindKey(keys, active).Some?
    ensures LabelsApart(keys)
  {
    hide FindKey;
    hide WellFormed;
    hide Decodes;
    hide DifferentMaterials;
    MaterialsDecoded(raws, keys);
    ActiveDecoded(raws, keys, active);
    LabelsDecoded(raws, keys);
  }

  lemma LabelsDecoded(raws: seq<RawKey>, keys: seq<KeyVersion>)
    requires Decodes(raws, keys) && forall i, j | 0 <= i < j < |raws| :: raws[i].version != raws[j].version
    ensures LabelsApart(keys)
  {
    hide WellFormed;
  }

  /** With labels apart, differing materials is a matter of membership. */
  lemma MaterialsByMembership(keys: seq<KeyVersion>)
    requires LabelsApart(keys)
    ensures DifferentMaterials(keys) <==>
      forall a, b | a in keys && b in keys && a.version != b.version :: a.material != b.material
  {
    if DifferentMaterials(keys) {
      forall a, b | a in keys && b in keys && a.version != b.version ensures a.material != b.material {
        var i :| 0 <= i < |keys| && keys[i] == a;
        var j :| 0 <= j < |keys| && keys[j] == b;
      }
    } else {
      var i, j :| 0 <= i < j < |keys| && keys[i].material == keys[j].material;
      assert keys[i] in keys && keys[j] in keys && keys[i].version != keys[j].version;
    }
  }

  /** Sorting changes neither the materials nor what is found. */
  lemma SortedAlike(keys: seq<KeyVersion>, sorted: seq<KeyVersion>, active: Label)
    requires LabelsApart(keys) && LabelsApart(sorted) && forall k :: k in sorted <==> k in keys
    ensures DifferentMaterials(sorted) <==> DifferentMaterials(keys)
    ensures FindKey(sorted, active).Some? <==> FindKey(keys, active).Some?
  {
    hide FindKey;
    hide LabelsApart;
    hide DifferentMaterials;
    MaterialsByMembership(keys);
    MaterialsByMembership(sorted);
  }

  /** The keys hold exactly the configured pairs, decoded. */
  predicate Holds(raws: seq<RawKey>, keys: seq<KeyVersion>) {
    && |keys| == |raws|
    && (forall raw | raw in raws :: WellFormed(raw) && KeyVersion(raw.version, raw.material.value) in keys)
    && (forall key | key in keys :: RawKey(key.version, Some(key.material)) in raws)
  }

  lemma DecodedHolds(raws: seq<RawKey>, keys: seq<KeyVersion>, sorted: seq<KeyVersion>)
    requires Decodes(raws, keys) && |sorted| == |keys| && forall k :: k in sorted <==> k in keys
    ensures Holds(raws, sorted)
  {
    hide LabelSyntax;
    forall raw | raw in raws ensures WellFormed(raw) && KeyVersion(raw.version, raw.material.value) in sorted {
      var i :| 0 <= i < |raws| && raws[i] == raw;
      assert keys[i] in keys;
    }
    forall key | key in sorted ensures RawKey(key.version, Some(key.material)) in raws {
      var i :| 0 <= i < |keys| && keys[i] == key;
      assert raws[i] == RawKey(key.version, Some(key.material));
    }
  }

  lemma SortedIsValid(raws: seq<RawKey>, keys: seq<KeyVersion>, active: Label)
    requires Holds(raws, keys) && LabelsApart(keys) && DifferentMaterials(keys) && FindKey(keys, active).Some?
    ensures ValidKeyring(Keyring(active, keys))
  {
    hide Alphanumeric;
    var key := FindKey(keys, active).value;
    var i :| 0 <= i < |keys| && keys[i] == key;
    forall j | 0 <= j < |keys| ensures |keys[j].material| == 32 && keys[j].version.text != [] {
      assert keys[j] in keys;
      assert WellFormed(RawKey(keys[j].version, Some(keys[j].material)));
    }
  }

  /** The environment variable with the pairs: not set, no JSON object of texts, or the pairs in their order. */
  datatype Config = Unset | Unparsable | Pairs(raws: seq<RawKey>)

  datatype Loading = NoKeyring | Loaded(keyring: Keyring) | ConfigError

  /** Without both variables there is no keyring; otherwise one loads exactly when its configuration is loadable.
      A loaded keyring is valid, active under the configured label, sorted by label, and holds the configured keys. */
  method LoadKeyring(config: Config, active: Option<Label>) returns (r: Loading)
    ensures r.NoKeyring? <==> config.Unset? && active.None?
    ensures r.Loaded? <==> config.Pairs? && active.Some? && Loadable(config.raws, active.value)
    ensures r.Loaded? ==>
      && ValidKeyring(r.keyring) && r.keyring.active == active.value
      && InLabelOrder(r.keyring.keys) && Holds(config.raws, r.keyring.keys)
  {
    hide ValidKeyring;
    hide FindKey;
    hide WellFormed;
    hide LabelsApart;
    hide InLabelOrder;
    hide Holds;
    hide DifferentMaterials;
    if config.Unset? && active.None? { return NoKeyring; }
    if !config.Pairs? || active.None? { return ConfigError; }
    var raws := config.raws;
    var distinct := DistinctLabels(raws);
    if !distinct { return ConfigError; }
    if !LabelSyntax(active.value.text) {
      UnlabelledNotLoadable(raws, active.value);
      return ConfigError;
    }
    var keys: seq<KeyVersion> := [];
    for i := 0 to |raws|
      invariant Decodes(raws[..i], keys)
    {
      if !WellFormed(raws[i]) {
        assert raws[i] in raws;
        return ConfigError;
      }
      HasMaterial(raws[i]);
      keys := keys + [KeyVersion(raws[i].version, raws[i].material.value)];
    }
    assert raws[..|raws|] == raws;
    LoadableWhenDecoded(raws, keys, active.value);
    var versions := SortByLabel(keys);
    OrderedAreApart(versions);
    SortedAlike(keys, versions, active.value);
    if versions == [] {
      assert raws == [];
      return ConfigError;
    }
    distinct := DistinctMaterials(versions);
    if !distinct || FindKey(versions, active.value).None? { return ConfigError; }
    DecodedHolds(raws, keys, versions);
    SortedIsValid(raws, versions, active.value);
    return Loaded(Keyring(active.value, versions));
  }

  lemma UnlabelledNotLoadable(raws: seq<RawKey>, active: Label)
    requires !LabelSyntax(active.text)
    ensures !Loadable(raws, active)
  {
  }

  lemma HasMaterial(raw: RawKey)
    requires WellFormed(raw)
    ensures raw.material.Some?
  {
  }
}
