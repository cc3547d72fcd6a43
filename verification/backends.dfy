/** The two backends as loaders and savers of bytes, over whatever text layer they sit on. */
module Backends {
  import opened Base
  import opened ConfigPath
  import opened Trees
  import opened Merging
  import opened JsonSax
  import opened XmlMeaning
  import opened XmlPrint
  import opened XmlText
  import opened Disks
  import opened CheckpointStores
  import opened CheckpointRestore
  import opened CheckpointRecovery
  import J = JsonInterfaces
  import X = XmlInterfaces

  // ------------------------------------------------------------------ JSON

  function JsonLoader(parse: Text -> Option<Json>, limits: Limits): Loader {
    bytes =>
      var j := parse(bytes);
      if |bytes| > limits.maxInputBytes || j.None? then Err(ParseError) else J.Loaded(j.value, limits.maxNodes)
  }

  /** The writer may refuse a document, for a string that is not valid UTF-8. */
  function JsonSaver(write: Json -> Option<Text>, text: Double -> Text): Saver {
    c =>
      var j := J.Saved(c, text);
      if j.Err? then Err(j.error)
      else if write(j.value).None? then Err(SerializationError)
      else Ok(write(j.value).value)
  }

  /** The text layer reads what it has written of a saved configuration. */
  ghost predicate JsonTextLayer(parse: Text -> Option<Json>, write: Json -> Option<Text>, text: Double -> Text) {
    forall c: Config :: ModelTree(c.tree) && J.Saved(c, text).Ok? ==> Rereads(parse, write, J.Saved(c, text).value)
  }

  ghost predicate Rereads(parse: Text -> Option<Json>, write: Json -> Option<Text>, j: Json) {
    write(j).Some? ==> parse(write(j).value) == Some(j)
  }

  /** The JSON backend loads models, and what it saves exactly within its limits. */
  lemma JsonLoadUndoesSave(parse: Text -> Option<Json>, write: Json -> Option<Text>, text: Double -> Text,
                           limits: Limits)
    requires J.Pointed(text) && JsonTextLayer(parse, write, text)
    ensures LoadsModels(JsonLoader(parse, limits))
    ensures LoadUndoesSave(JsonLoader(parse, limits), JsonSaver(write, text), limits)
  {
    hide J.Loaded, J.Saved, J.Pointed, ModelTree, Size;
    var load, save := JsonLoader(parse, limits), JsonSaver(write, text);
    forall bytes | load(bytes).Ok?
      ensures ModelTree(load(bytes).value.tree)
    {
      J.LoadedFits(parse(bytes).value, limits.maxNodes);
    }
    forall c: Config | ModelTree(c.tree) && save(c).Ok?
      ensures LoadsBack(load, save(c).value, c, limits)
    {
      assert Rereads(parse, write, J.Saved(c, text).value);
      J.LoadedSaved(c, text, limits.maxNodes);
    }
  }

  /** Recovery with the JSON backend. */
  lemma JsonRecovered(options: Options, before: Files, after: Files, config: Config, parse: Text -> Option<Json>,
                      write: Json -> Option<Text>, text: Double -> Text, limits: Limits)
    requires J.Pointed(text) && JsonTextLayer(parse, write, text) && ModelTree(config.tree)
    requires Replacing(options, JsonSaver(write, text), before, after, config)
    ensures Reloads(options, JsonLoader(parse, limits), after, config, limits)
  {
    JsonLoadUndoesSave(parse, write, text, limits);
    RecoveredLoads(options, JsonLoader(parse, limits), JsonSaver(write, text), before, after, config, limits);
  }

  // ------------------------------------------------------------------ XML

  ghost function XmlLoader(parse: Text -> Option<seq<Xml>>, limits: Limits, read: Reader): Loader {
    bytes =>
      var doc := parse(bytes);
      if |bytes| > limits.maxInputBytes || doc.None? then Err(ParseError)
      else X.Loaded(doc.value, limits.maxNodes, read)
  }

  ghost function XmlSaver(write: Xml -> Text, show: Double -> Text): Saver {
    c => var e := X.Saved(c, show); if e.Err? then Err(e.error) else Ok(write(e.value))
  }

  /** The text layer reads what it has written of a saved configuration, but for white space that it puts between
      the children of non-empty containers and around the root. */
  ghost predicate XmlTextLayer(parse: Text -> Option<seq<Xml>>, write: Xml -> Text, show: Double -> Text) {
    forall c: Config :: ModelTree(c.tree) && X.Saved(c, show).Ok? ==>
      Formatted(parse(write(X.Saved(c, show).value)), X.Saved(c, show).value)
  }

  ghost predicate Formatted(doc: Option<seq<Xml>>, root: Xml) {
    doc.Some? && X.SoleRoot(doc.value) && Strip(X.RootOf(doc.value)) == root
  }

  /** The XML backend loads models, and what it saves exactly within its limits. */
  lemma XmlLoadUndoesSave(parse: Text -> Option<seq<Xml>>, write: Xml -> Text, read: Reader, show: Double -> Text,
                          limits: Limits)
    requires ReadsBack(read, show) && XmlTextLayer(parse, write, show)
    ensures LoadsModels(XmlLoader(parse, limits, read))
    ensures LoadUndoesSave(XmlLoader(parse, limits, read), XmlSaver(write, show), limits)
  {
    hide X.Loaded, X.Saved, X.SoleRoot, X.RootOf, Strip, ReadsBack, ModelTree, Size;
    var load, save := XmlLoader(parse, limits, read), XmlSaver(write, show);
    forall bytes | load(bytes).Ok?
      ensures ModelTree(load(bytes).value.tree)
    {
      X.LoadedFits(parse(bytes).value, limits.maxNodes, read);
    }
    forall c: Config | ModelTree(c.tree) && save(c).Ok?
      ensures LoadsBack(load, save(c).value, c, limits)
    {
      var doc := parse(write(X.Saved(c, show).value));
      assert Formatted(doc, X.Saved(c, show).value);
      X.LoadedSaved(c, doc.value, limits.maxNodes, read, show);
    }
  }

  /** Recovery with the XML backend. */
  lemma XmlRecovered(options: Options, before: Files, after: Files, config: Config, parse: Text -> Option<seq<Xml>>,
                     write: Xml -> Text, read: Reader, show: Double -> Text, limits: Limits)
    requires ReadsBack(read, show) && XmlTextLayer(parse, write, show) && ModelTree(config.tree)
    requires Replacing(options, XmlSaver(write, show), before, after, config)
    ensures Reloads(options, XmlLoader(parse, limits, read), after, config, limits)
  {
    XmlLoadUndoesSave(parse, write, read, show, limits);
    RecoveredLoads(options, XmlLoader(parse, limits, read), XmlSaver(write, show), before, after, config, limits);
  }

  // ------------------------------------------------------------------ the limit can be crossed

  /** "a" and "b" */
  const FIRST: Text := [0x61]
  const SECOND: Text := [0x62]

  function Nulls(n: nat): Tree {
    Arr(seq(n, _ => Leaf(Null)))
  }

  /** A model of `n` nodes. */
  function Model(n: nat): Tree
    requires n > 0
  {
    if n == 1 then Obj([]) else Obj([(FIRST, Nulls(n - 2))])
  }

  function Defaults(): Tree {
    Obj([(SECOND, Leaf(Null))])
  }

  function Grown(n: nat): Tree
    requires n > 0
  {
    if n == 1 then Defaults() else Obj([(FIRST, Nulls(n - 2)), (SECOND, Leaf(Null))])
  }

  lemma MergeGrows(n: nat)
    requires n > 0
    ensures Merge(Model(n), Defaults()) == Grown(n)
  {
    hide Nulls, Size;
    var m, d := Model(n), Defaults();
    assert Find(m.members, SECOND) == |m.members|;
    assert Missing(m.members, d.members[..0]) == [];
    assert d.members[..1] == d.members;
    assert Missing(m.members, d.members) == d.members;
    if n > 1 {
      assert Find(d.members, FIRST) == 1;
      assert MergedValue(m.members[0], d) == Nulls(n - 2);
    }
    assert Merge(m, d).members == Grown(n).members;
  }

  lemma {:induction false} NullSizes(n: nat, k: nat)
    requires k <= n
    ensures KidSizes(Nulls(n), k) == k
    decreases k
  {
    if k > 0 {
      NullSizes(n, k - 1);
      assert KidSizes(Leaf(Null), 0) == 0;
    }
  }

  lemma Sizes(n: nat)
    requires n > 0
    ensures Size(Model(n)) == n && Size(Grown(n)) == n + 1
  {
    assert KidSizes(Leaf(Null), 0) == 0;
    if n > 1 {
      NullSizes(n - 2, n - 2);
      assert Size(Nulls(n - 2)) == n - 1;
      hide Nulls;
      var m, g := Model(n), Grown(n);
      assert KidSizes(m, 0) == 0 && KidSizes(m, 1) == n - 1;
      assert KidSizes(g, 0) == 0 && KidSizes(g, 1) == n - 1 && KidSizes(g, 2) == n;
    }
  }

  /** What a member's value must be for the whole to be a model that both backends save. */
  ghost predicate Fine(t: Tree) {
    Distinct(t) && Fits(t, 1) && J.AllFinite(t) && Printable(t)
  }

  lemma NullsFine(n: nat)
    ensures Fine(Nulls(n)) && Fine(Leaf(Null))
  {
  }

  lemma ObjectFine(members: seq<(Text, Tree)>)
    requires UniqueKeys(members)
    requires forall i :: 0 <= i < |members| ==> (members[i].0 == FIRST || members[i].0 == SECOND) && Fine(members[i].1)
    ensures ModelTree(Obj(members)) && J.Savable(Obj(members)) && Printable(Obj(members))
  {
    LettersAreNames();
    LettersAreKeys();
    hide FIRST, SECOND, VERSION_KEY, ElementName, Addressable, Find;
    var t := Obj(members);
    assert forall i :: 0 <= i < KidCount(t) ==> Kid(t, i) == members[i].1 && Fine(Kid(t, i));
    assert Find(members, VERSION_KEY) == |members|;
  }

  lemma LettersAreKeys()
    ensures Addressable(FIRST) && Addressable(SECOND) && FIRST != SECOND
    ensures FIRST != VERSION_KEY && SECOND != VERSION_KEY
  {
    assert |FIRST| != |VERSION_KEY| && FIRST[0] != SECOND[0];
  }

  lemma TreesFine(n: nat)
    requires n > 0
    ensures ModelTree(Model(n)) && ModelTree(Grown(n)) && ModelTree(Defaults())
    ensures J.Savable(Grown(n)) && Printable(Grown(n)) && J.Savable(Model(n)) && Printable(Model(n))
  {
    LettersAreKeys();
    NullsFine(if n > 1 then n - 2 else 0);
    hide Fine, Nulls, ModelTree, J.Savable, Printable, FIRST, SECOND;
    ObjectFine(Model(n).members);
    ObjectFine(Grown(n).members);
    ObjectFine(Defaults().members);
  }

  lemma LettersAreNames()
    ensures ElementName(FIRST) && ElementName(SECOND)
  {
    AsciiText(FIRST);
    AsciiText(SECOND);
    assert NameOf(FIRST) && NameOf(SECOND);
  }

  /** A configuration exactly at the node limit is saved and loads; with one default more, what repair makes of it is
      saved by either backend and loaded by neither. */
  lemma RepairOutgrows(max: nat, version: UInt32, text: Double -> Text, read: Reader, show: Double -> Text)
    requires max > 0 && J.Pointed(text) && ReadsBack(read, show)
    ensures var m, d := Model(max), Defaults();
            && ModelTree(m) && ModelTree(d) && ModelTree(Merge(m, d))
            && var before, after := Config(version, m), Config(version, Merge(m, d));
               && J.Saved(before, text).Ok? && J.Loaded(J.Saved(before, text).value, max) == Ok(before)
               && J.Saved(after, text).Ok? && J.Loaded(J.Saved(after, text).value, max).Err?
               && X.Saved(before, show).Ok? && X.Loaded([X.Saved(before, show).value], max, read) == Ok(before)
               && X.Saved(after, show).Ok? && X.Loaded([X.Saved(after, show).value], max, read).Err?
  {
    hide Merge, Grown, Model, Defaults, Size, J.Savable, Printable, ModelTree, J.Loaded, X.Loaded, J.Pointed, ReadsBack;
    MergeGrows(max);
    Sizes(max);
    TreesFine(max);
    var before, after := Config(version, Model(max)), Config(version, Grown(max));
    BothSave(before, text, read, show);
    BothSave(after, text, read, show);
    J.LoadedSaved(before, text, max);
    J.LoadedSaved(after, text, max);
    X.LoadedSaved(before, [X.Saved(before, show).value], max, read, show);
    X.LoadedSaved(after, [X.Saved(after, show).value], max, read, show);
  }

  lemma BothSave(c: Config, text: Double -> Text, read: Reader, show: Double -> Text)
    requires ModelTree(c.tree) && J.Savable(c.tree) && Printable(c.tree) && ReadsBack(read, show)
    ensures J.Saved(c, text).Ok? && X.Saved(c, show).Ok?
    ensures Formatted(Some([X.Saved(c, show).value]), X.Saved(c, show).value)
  {
    hide J.Savable, Printable, ReadsBack, Strip;
    X.StripDocument(c.version, c.tree, read, show);
    var root := X.Document(c.version, c.tree, show);
    assert X.SoleRoot([root]) && X.RootOf([root]) == root;
  }
}
