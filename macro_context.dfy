/**
  `BasicMacroExpansionContext.swift` from SwiftSyntaxMacroExpansion: the
  context hands out unique names built from an expansion discriminator, a
  length-prefixed name, the marker `fMu` and a per-name counter, and it
  collects diagnostics in the order they are emitted. The token wrapped
  around a unique name, the contents of a diagnostic and the syntax-tree
  bookkeeping (`sourceFiles`, `detachedNodes`) are not part of this model.
 */
module MacroContext {
  import opened Wrappers
  import opened Text

  /** The discriminator a context uses when none is given. */
  const DefaultDiscriminator: string := "__macro_local_"

  /** The name substituted for an empty provided name. */
  const LocalName: string := "__local"

  /** Operator mangling for macro-generated unique names. */
  const UniqueNameMarker: string := "fMu"

  /** A diagnostic, kept only so that its position in the list can be observed. */
  datatype Diagnostic = Diagnostic(message: string)

  /** The name actually mangled for a provided name. */
  function EffectiveName(providedName: string): (name: string)
    ensures |name| > 0
    ensures |providedName| > 0 ==> name == providedName
  {
    if |providedName| == 0 then LocalName else providedName
  }

  /** The index part: nothing for the first use of a name, then 0, 1, 2, ... */
  function IndexSuffix(uniqueIndex: nat): (s: string)
    ensures uniqueIndex == 0 <==> |s| == 0
  {
    if uniqueIndex > 0 then NatToString(uniqueIndex - 1) else ""
  }

  /** The unique name for the `uniqueIndex`-th request of `name`. */
  function UniqueName(discriminator: string, name: string, uniqueIndex: nat): string {
    discriminator + NatToString(|name|) + name + UniqueNameMarker + IndexSuffix(uniqueIndex) + "_"
  }

  class BasicMacroExpansionContext {
    var diagnostics: seq<Diagnostic>
    var expansionDiscriminator: string
    var uniqueNames: map<string, nat>

    constructor (expansionDiscriminator: string)
      ensures this.expansionDiscriminator == expansionDiscriminator
      ensures diagnostics == [] && uniqueNames == map[]
    {
      this.expansionDiscriminator := expansionDiscriminator;
      diagnostics := [];
      uniqueNames := map[];
    }

    /** `uniqueNames[name, default: 0]`. */
    function UseCount(name: string): nat
      reads this
    {
      if name in uniqueNames then uniqueNames[name] else 0
    }

    /**
      `makeUniqueName(_:)`. Swift's `Int` addition traps past `Int.max`, so
      the counter must still have room.
     */
    method MakeUniqueName(providedName: string) returns (r: string)
      requires UseCount(EffectiveName(providedName)) < INT64_MAX
      modifies this
      ensures r == UniqueName(expansionDiscriminator, EffectiveName(providedName), old(UseCount(EffectiveName(providedName))))
      ensures uniqueNames == old(uniqueNames)[EffectiveName(providedName) := old(UseCount(EffectiveName(providedName))) + 1]
      ensures forall n :: n != EffectiveName(providedName) ==> UseCount(n) == old(UseCount(n))
      ensures forall k: nat :: k < old(UseCount(EffectiveName(providedName))) ==>
        r != UniqueName(expansionDiscriminator, EffectiveName(providedName), k)
      ensures diagnostics == old(diagnostics) && expansionDiscriminator == old(expansionDiscriminator)
    {
      var name := if |providedName| == 0 then LocalName else providedName;
      var uniqueIndex := if name in uniqueNames then uniqueNames[name] else 0;
      uniqueNames := uniqueNames[name := uniqueIndex + 1];
      var resultString := expansionDiscriminator;
      resultString := resultString + NatToString(|name|) + name;
      resultString := resultString + UniqueNameMarker;
      if uniqueIndex > 0 {
        resultString := resultString + NatToString(uniqueIndex - 1);
      }
      resultString := resultString + "_";
      r := resultString;
      forall k: nat | k < uniqueIndex
        ensures r != UniqueName(expansionDiscriminator, name, k)
      {
        UniqueNamesDistinct(expansionDiscriminator, name, k, uniqueIndex);
      }
    }

    /** `diagnose(_:)`. */
    method Diagnose(diagnostic: Diagnostic)
      modifies this
      ensures diagnostics == old(diagnostics) + [diagnostic]
      ensures uniqueNames == old(uniqueNames) && expansionDiscriminator == old(expansionDiscriminator)
    {
      diagnostics := diagnostics + [diagnostic];
    }
  }

  /** Two requests for the same name under one discriminator never get the same unique name. */
  lemma UniqueNamesDistinct(discriminator: string, name: string, i: nat, j: nat)
    requires i != j
    ensures UniqueName(discriminator, name, i) != UniqueName(discriminator, name, j)
  {
    var p := discriminator + NatToString(|name|) + name + UniqueNameMarker;
    var si, sj := IndexSuffix(i), IndexSuffix(j);
    assert UniqueName(discriminator, name, i) == p + si + "_";
    assert UniqueName(discriminator, name, j) == p + sj + "_";
    if p + si + "_" == p + sj + "_" {
      assert |si| == |sj|;
      assert si == (p + si + "_")[|p|..|p| + |si|];
      assert sj == (p + sj + "_")[|p|..|p| + |sj|];
      if i > 0 && j > 0 {
        NatToStringInjective(i - 1, j - 1);
      }
    }
  }

  /** The first unique name for `x` under the default discriminator. */
  lemma FirstUniqueName(name: string)
    requires name == "x"
    ensures UniqueName(DefaultDiscriminator, name, 0) == "__macro_local_1xfMu_"
    ensures UniqueName(DefaultDiscriminator, name, 1) == "__macro_local_1xfMu0_"
  {
  }

  /** The last index of `/` in `s`, if any. */
  function LastSlash(s: string): (r: Option<nat>)
    ensures r.Some? ==> r.value < |s| && s[r.value] == '/' && forall k :: r.value < k < |s| ==> s[k] != '/'
    ensures r.None? ==> forall k :: 0 <= k < |s| ==> s[k] != '/'
    decreases |s|
  {
    if |s| == 0 then None
    else if s[|s| - 1] == '/' then Some(|s| - 1)
    else LastSlash(s[..|s| - 1])
  }

  /** `String.basename`: the text after the last `/`, or the whole string when there is none. */
  function Basename(s: string): (r: string)
    ensures EndsWith(s, r)
    ensures '/' !in r
    ensures |r| < |s| ==> s[|s| - |r| - 1] == '/'
    ensures '/' !in s ==> r == s
  {
    var lastSlash := LastSlash(s);
    if lastSlash.None? then s else s[lastSlash.value + 1..]
  }

  /** The basename of a directory, a slash and a name without slashes is that name. */
  lemma BasenameAfterSlash(directory: string, name: string)
    requires '/' !in name
    ensures Basename(directory + "/" + name) == name
  {
    var s := directory + "/" + name;
    assert s[|directory|] == '/';
    forall k | |directory| < k < |s| ensures s[k] != '/' {
      assert s[k] == name[k - |directory| - 1];
    }
    assert LastSlash(s) == Some(|directory|);
    assert s[|directory| + 1..] == name;
  }
}
