/** The table of format back-ends kept by `CheapSoundFile`: the list of
    supported extensions, the map from an extension to the factory that
    handles it, and the lookups made by `isFilenameSupported` and `create`. */
module FormatRegistry {
  import opened FileNames
  import opened Wrappers

  /** A back-end factory (`CheapSoundFile.Factory`): the format it stands for
      and the extensions its `getSupportedExtensions` returns. */
  datatype Factory = Factory(name: string, extensions: seq<string>)

  /** The extensions of all factories, factory by factory, in order and with
      repetitions. */
  function AllExtensions(fs: seq<Factory>): seq<string>
  {
    if fs == [] then [] else AllExtensions(fs[..|fs| - 1]) + fs[|fs| - 1].extensions
  }

  /** `m` after `m.put(e, id)` for each `e` of `exts` in turn. */
  function PutAll(m: map<string, nat>, id: nat, exts: seq<string>): map<string, nat>
  {
    if exts == [] then m else PutAll(m, id, exts[..|exts| - 1])[exts[|exts| - 1] := id]
  }

  /** The extension map after all factories have been registered in order;
      a factory is named by its position in the factory list. */
  function ExtensionMapOf(fs: seq<Factory>): map<string, nat>
  {
    if fs == [] then map[] else PutAll(ExtensionMapOf(fs[..|fs| - 1]), |fs| - 1, fs[|fs| - 1].extensions)
  }

  /** Factory `i` is the last one in `fs` that declares `e`. */
  ghost predicate LastDeclarer(fs: seq<Factory>, e: string, i: int)
  {
    0 <= i < |fs| && e in fs[i].extensions &&
    forall j :: i < j < |fs| ==> e !in fs[j].extensions
  }

  lemma {:induction false} PutAllEffect(m: map<string, nat>, id: nat, exts: seq<string>, e: string)
    ensures e in PutAll(m, id, exts) <==> e in m || e in exts
    ensures e in exts ==> PutAll(m, id, exts)[e] == id
    ensures e !in exts && e in m ==> PutAll(m, id, exts)[e] == m[e]
  {
    if exts != [] {
      var front := exts[..|exts| - 1];
      PutAllEffect(m, id, front, e);
      assert exts == front + [exts[|exts| - 1]];
    }
  }

  /** An extension is listed exactly when some factory declares it. */
  lemma {:induction false} AllExtensionsMembers(fs: seq<Factory>, e: string)
    ensures e in AllExtensions(fs) <==> exists i :: 0 <= i < |fs| && e in fs[i].extensions
  {
    if fs != [] {
      var front := fs[..|fs| - 1];
      AllExtensionsMembers(front, e);
      if e in AllExtensions(front) {
        var i :| 0 <= i < |front| && e in front[i].extensions;
        assert fs[i] == front[i];
      }
      if exists i :: 0 <= i < |fs| && e in fs[i].extensions {
        var i :| 0 <= i < |fs| && e in fs[i].extensions;
        if i < |front| {
          assert front[i] == fs[i];
        }
      }
    }
  }

  /** Registering factories one after the other lists their extensions one
      after the other. */
  lemma {:induction false} AllExtensionsConcat(fs: seq<Factory>, gs: seq<Factory>)
    ensures AllExtensions(fs + gs) == AllExtensions(fs) + AllExtensions(gs)
    decreases |gs|
  {
    if gs == [] {
      assert fs + gs == fs;
    } else {
      var front := gs[..|gs| - 1];
      assert (fs + gs)[..|fs + gs| - 1] == fs + front;
      assert (fs + gs)[|fs + gs| - 1] == gs[|gs| - 1];
      AllExtensionsConcat(fs, front);
    }
  }

  /** The key set of the extension map is the set of listed extensions, and
      every key maps to the last factory that declares it. */
  lemma {:induction false} ExtensionMapIsLastDeclarer(fs: seq<Factory>, e: string)
    ensures e in ExtensionMapOf(fs) <==> e in AllExtensions(fs)
    ensures e in ExtensionMapOf(fs) ==> LastDeclarer(fs, e, ExtensionMapOf(fs)[e])
  {
    if fs != [] {
      var front, last := fs[..|fs| - 1], fs[|fs| - 1];
      ExtensionMapIsLastDeclarer(front, e);
      PutAllEffect(ExtensionMapOf(front), |fs| - 1, last.extensions, e);
      if e in ExtensionMapOf(fs) && e !in last.extensions {
        var i := ExtensionMapOf(front)[e];
        assert LastDeclarer(front, e, i);
        assert fs[i] == front[i];
        forall j | i < j < |fs| ensures e !in fs[j].extensions {
          if j < |front| { assert fs[j] == front[j]; }
        }
      }
    }
  }

  /** The factory an extension maps to is determined: it is the last one
      declaring it. */
  lemma LastDeclarerUnique(fs: seq<Factory>, e: string, i: int, j: int)
    requires LastDeclarer(fs, e, i) && LastDeclarer(fs, e, j)
    ensures i == j
  {
  }

  /** A name's last component is a key of the extension map exactly when
      the name has an extension that some factory declares. */
  lemma SupportedIffDeclared(fs: seq<Factory>, name: string)
    ensures (LastComponent(name).Some? && LastComponent(name).value in ExtensionMapOf(fs)) <==>
      (ExtensionOf(name).Some? && exists i :: 0 <= i < |fs| && ExtensionOf(name).value in fs[i].extensions)
  {
    LastComponentIsExtension(name);
    var ext := ExtensionOf(name);
    if ext.Some? {
      ExtensionMapIsLastDeclarer(fs, ext.value);
      AllExtensionsMembers(fs, ext.value);
    }
  }

  /** The outcome of the extension lookup in `create`. */
  datatype Resolution =
    | FileNotFound          // `create` throws FileNotFoundException
    | Unsupported           // `create` returns null
    | Supported(index: nat) // `create` asks factory `index` to read the file

  /** The last path component, as `File.getName` gives it: the longest
      suffix of the path without a `/`. */
  function BaseName(path: string): (r: string)
    ensures '/' !in r
    ensures |r| <= |path| && r == path[|path| - |r|..]
    ensures |r| == |path| || path[|path| - |r| - 1] == '/'
  {
    if path == [] || path[|path| - 1] == '/' then [] else BaseName(path[..|path| - 1]) + [path[|path| - 1]]
  }

  /** The static state of `CheapSoundFile`: the factory list
      `sSubclassFactories`, and `sSupportedExtensions` and `sExtensionMap`
      that its static initialiser fills. */
  class ExtensionRegistry {
    const factories: seq<Factory>
    var supportedExtensions: seq<string>
    var extensionMap: map<string, nat>

    /** The state the static initialiser leaves behind. */
    ghost predicate Valid()
      reads this
    {
      supportedExtensions == AllExtensions(factories) &&
      extensionMap == ExtensionMapOf(factories)
    }

    /** The static initialiser: for each factory, for each of its
        extensions, append it to the list and put it in the map. */
    constructor (fs: seq<Factory>)
      ensures factories == fs
      ensures Valid()
    {
      factories := fs;
      supportedExtensions := [];
      extensionMap := map[];
      new;
      var i := 0;
      while i < |fs|
        invariant 0 <= i <= |fs|
        invariant supportedExtensions == AllExtensions(fs[..i])
        invariant extensionMap == ExtensionMapOf(fs[..i])
      {
        var exts := fs[i].extensions;
        var j := 0;
        while j < |exts|
          invariant 0 <= j <= |exts|
          invariant supportedExtensions == AllExtensions(fs[..i]) + exts[..j]
          invariant extensionMap == PutAll(ExtensionMapOf(fs[..i]), i, exts[..j])
        {
          assert exts[..j + 1][..j] == exts[..j];
          supportedExtensions := supportedExtensions + [exts[j]];
          extensionMap := extensionMap[exts[j] := i];
          j := j + 1;
        }
        assert exts[..j] == exts;
        assert fs[..i + 1][..i] == fs[..i];
        i := i + 1;
      }
      assert fs[..i] == fs;
    }

    /** `getSupportedExtensions`: every factory's extensions in factory
        order, repetitions kept. */
    function SupportedExtensions(): (r: seq<string>)
      reads this
      requires Valid()
      ensures r == AllExtensions(factories)
      ensures forall e :: e in r <==> e in extensionMap
    {
      forall e ensures e in supportedExtensions <==> e in extensionMap {
        ExtensionMapIsLastDeclarer(factories, e);
      }
      supportedExtensions
    }

    /** `isFilenameSupported`: the name has an extension (the text after
        its last dot, trailing dots ignored, lower-cased) and some factory
        declares it. */
    predicate IsFilenameSupported(filename: string)
      reads this
      requires Valid()
      ensures IsFilenameSupported(filename) <==>
        ExtensionOf(filename).Some? &&
        exists i :: 0 <= i < |factories| && ExtensionOf(filename).value in factories[i].extensions
    {
      SupportedIffDeclared(factories, filename);
      var components := Split(Lower(filename));
      |components| >= 2 && components[|components| - 1] in extensionMap
    }

    /** The lookup in `create`: a missing file is an error; otherwise the
        extension of the file's own name (its directory left aside) selects
        the last factory that declares it, if any. */
    function Resolve(fileName: string, fileExists: bool): (r: Resolution)
      reads this
      requires Valid()
      ensures !fileExists <==> r == FileNotFound
      ensures fileExists ==> (r.Supported? <==> IsFilenameSupported(BaseName(fileName)))
      ensures r.Supported? ==>
        ExtensionOf(BaseName(fileName)).Some? &&
        LastDeclarer(factories, ExtensionOf(BaseName(fileName)).value, r.index)
    {
      if !fileExists then FileNotFound
      else
        var name := Lower(BaseName(fileName));
        var components := Split(name);
        if |components| < 2 then Unsupported
        else
          var ext := components[|components| - 1];
          LastComponentIsExtension(BaseName(fileName));
          ExtensionMapIsLastDeclarer(factories, ext);
          if ext !in extensionMap then Unsupported else Supported(extensionMap[ext])
    }
  }
}
