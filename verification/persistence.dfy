/**
 * Companion-path derivation between a structure file (.dgml) and its
 * layout overlay (.dgml-layout), loading a pair, and a model's reset from
 * a DGML file.
 */
module Persistence {
  import opened Base
  import opened Text
  import opened Paths
  import opened Graphs
  import opened Dgml
  import opened DgmlSerializer

  const LayoutExt := ".dgml-layout"
  const StructExt := ".dgml"

  /** The overlay beside a structure file. */
  function GetLayoutPathFor(structurePath: string): (p: string)
    ensures |structurePath| > 0 ==> p == Stem(structurePath) + LayoutExt
    ensures |structurePath| == 0 ==> p == ""
  {
    ChangeExtension(structurePath, LayoutExt)
  }

  /**
   * The structure file of an overlay path: the extension becomes ".dgml"
   * when the path has one and ends with ".dgml-layout" in any letter case;
   * any other path is taken to be a structure path already.
   */
  function GetStructurePathFor(layoutPath: string): (p: string)
    ensures !EndsWithIgnoreCase(layoutPath, LayoutExt) ==> p == layoutPath
  {
    if HasExtension(layoutPath) && EndsWithIgnoreCase(layoutPath, LayoutExt)
    then ChangeExtension(layoutPath, StructExt)
    else layoutPath
  }

  /** The serializer's overlay path ("dgml-layout" without its dot) is the same path. */
  lemma SerializerAgreesOnLayoutPath(p: string)
    ensures LayoutPath(p) == GetLayoutPathFor(p)
  {
    assert Dotted("dgml-layout") == LayoutExt;
  }

  lemma LayoutExtSimple()
    ensures SimpleExtension(LayoutExt) && SimpleExtension(StructExt)
  {
  }

  /** The last twelve characters of a path ending in ".dgml-layout", in any letter case, are a simple extension. */
  lemma FoldedLayoutExtSimple(p: string)
    requires EndsWithIgnoreCase(p, LayoutExt)
    ensures SimpleExtension(p[|p| - |LayoutExt|..])
  {
    var e := p[|p| - |LayoutExt|..];
    assert ToLowerAscii(e[0]) == '.';
    forall j | 1 <= j < |e| ensures e[j] != '.' && !IsSeparator(e[j]) {
      assert ToLowerAscii(e[j]) == ToLowerAscii(LayoutExt[j]);
    }
  }

  /** A path ending in ".dgml-layout" in any letter case has an extension. */
  lemma EndsWithLayoutExtHasExtension(p: string)
    requires EndsWithIgnoreCase(p, LayoutExt)
    ensures HasExtension(p)
  {
    FoldedLayoutExtSimple(p);
    SuffixIsExtension(p, |p| - |LayoutExt|);
  }

  /** A path ending in ".dgml" does not end in ".dgml-layout", whatever the case. */
  lemma StructPathNotLayout(stem: string)
    ensures !EndsWithIgnoreCase(stem + StructExt, LayoutExt)
  {
    var p := stem + StructExt;
    if |LayoutExt| <= |p| {
      assert p[|p| - 1] == 'l';
      assert ToLowerAscii(p[|p| - |LayoutExt|..][|LayoutExt| - 1]) != ToLowerAscii(LayoutExt[|LayoutExt| - 1]);
    }
  }

  /**
   * The overlay test reduces to the suffix test alone: every path ending in
   * ".dgml-layout" maps to the same extension changed to ".dgml".
   */
  lemma StructurePathOfLayoutSuffix(p: string)
    ensures EndsWithIgnoreCase(p, LayoutExt) ==> GetStructurePathFor(p) == ChangeExtension(p, StructExt)
  {
    if EndsWithIgnoreCase(p, LayoutExt) {
      EndsWithLayoutExtHasExtension(p);
    }
  }

  /** From a structure path to its overlay and back ends at the path with extension ".dgml". */
  lemma StructureOfLayout(p: string)
    ensures GetStructurePathFor(GetLayoutPathFor(p)) == ChangeExtension(p, StructExt)
  {
    if |p| > 0 {
      var lp := GetLayoutPathFor(p);
      assert lp[|lp| - |LayoutExt|..] == LayoutExt;
      StructurePathOfLayoutSuffix(lp);
      LayoutExtSimple();
      ChangeExtensionTwice(p, LayoutExt, StructExt);
    }
  }

  /** Paths with extension ".dgml" are fixed points of the structure-path mapping. */
  lemma StructurePathOfStructure(stem: string)
    ensures GetStructurePathFor(stem + StructExt) == stem + StructExt
    ensures GetStructurePathFor(GetLayoutPathFor(stem + StructExt)) == stem + StructExt
  {
    StructPathNotLayout(stem);
    StructureOfLayout(stem + StructExt);
    LayoutExtSimple();
    ChangeExtensionKeeps(stem, StructExt);
  }

  /** Mapping to the structure path twice is mapping once. */
  lemma GetStructurePathIdempotent(p: string)
    ensures GetStructurePathFor(GetStructurePathFor(p)) == GetStructurePathFor(p)
  {
    if HasExtension(p) && EndsWithIgnoreCase(p, LayoutExt) {
      StructPathNotLayout(Stem(p));
    }
  }

  /** The path a pair load starts from: an overlay path is mapped to its structure file. */
  function NormalisedPath(anyPath: string): (p: string)
    ensures p == GetStructurePathFor(anyPath)
  {
    StructurePathOfLayoutSuffix(anyPath);
    if EndsWithIgnoreCase(anyPath, LayoutExt) then GetStructurePathFor(anyPath) else anyPath
  }

  /**
   * `LoadPairAsync`: loads from the structure path of `anyPath` and records
   * that path as the model's file path.
   */
  method LoadPair(fs: FileSystem, anyPath: string, f: NumberFormat, nextId: nat) returns (r: Result<Model>, next: nat)
    ensures var b := LoadBeforePins(fs, GetStructurePathFor(anyPath), f, nextId);
      && (b.Err? ==> r == Err(b.error))
      && (b.Ok? ==> r.Ok? && r.value.filePath == GetStructurePathFor(anyPath)
                    && r.value.nodes.Keys == b.value.0.nodes.Keys && r.value.edges == b.value.0.edges)
    ensures var b := LoadBeforePins(fs, GetStructurePathFor(anyPath), f, nextId);
      b.Ok? && LayoutPath(GetStructurePathFor(anyPath)) !in fs ==> r.value.nodes == b.value.0.nodes
    ensures var b := LoadBeforePins(fs, GetStructurePathFor(anyPath), f, nextId);
      b.Ok? && LayoutPath(GetStructurePathFor(anyPath)) in fs ==>
        forall k | k in b.value.0.nodes :: PinsCompleted(b.value.0.nodes[k], r.value.nodes[k], b.value.0.edges)
    ensures nextId <= next
  {
    var structurePath := NormalisedPath(anyPath);
    var loaded;
    loaded, next := LoadFromDgml(fs, structurePath, f, nextId);
    if loaded.Err? {
      return loaded, next;
    }
    r := Ok(loaded.value.(filePath := structurePath));
  }

  /**
   * `GraphModel.LoadFromDgmlFile`: a missing file fails with `FileNotFound`
   * (the caller's model stays as it was); otherwise the loaded model's
   * nodes and edges replace the model's, keeping its file path.
   */
  method LoadFromDgmlFile(m: Model, fs: FileSystem, path: string, f: NumberFormat, nextId: nat) returns (r: Result<Model>, next: nat)
    ensures path !in fs ==> r == Err(FileNotFound(path)) && next == nextId
    ensures path in fs && LoadBeforePins(fs, path, f, nextId).Err? ==> r == Err(LoadBeforePins(fs, path, f, nextId).error)
    ensures path in fs && LoadBeforePins(fs, path, f, nextId).Ok? ==>
      var b := LoadBeforePins(fs, path, f, nextId).value.0;
      && r.Ok? && r.value.filePath == m.filePath
      && r.value.nodes.Keys == b.nodes.Keys && r.value.edges == b.edges
    ensures path in fs && LoadBeforePins(fs, path, f, nextId).Ok? && LayoutPath(path) !in fs ==>
      r.value.nodes == LoadBeforePins(fs, path, f, nextId).value.0.nodes
    ensures path in fs && LoadBeforePins(fs, path, f, nextId).Ok? && LayoutPath(path) in fs ==>
      var b := LoadBeforePins(fs, path, f, nextId).value.0;
      forall k | k in b.nodes :: PinsCompleted(b.nodes[k], r.value.nodes[k], b.edges)
    ensures nextId <= next
  {
    if path !in fs {
      return Err(FileNotFound(path)), nextId;
    }
    var loaded;
    loaded, next := LoadFromDgml(fs, path, f, nextId);
    if loaded.Err? {
      return Err(loaded.error), next;
    }
    var reset := ResetFrom(m, loaded.value);
    r := Ok(reset);
  }
}
