/**
 `LayoutDumpConsumer::HandleTagDeclDefinition`: the decision, for each tag
 definition clang reports, whether to dump its record layout, and the block it
 writes to the diagnostic stream when it does. The clang AST is reduced to the
 facts the decision reads; the stream is a log of emitted blocks.
 */
module Consumer {
  import opened StringUtil
  import opened Options

  const SeparatorPrefix: string := "------ Record Decl: "

  /** A C record, or a C++ record with, per base specifier, whether its type resolves to a class declaration. */
  datatype RecordKind = CRecord | CxxRecord(baseResolves: seq<bool>)

  /**
   A tag definition: either not a record (an enum), or a record with its
   qualified name, its kind, and the text `DumpRecordLayout` would print for it.
   */
  datatype TagDecl =
    | NonRecordTag
    | RecordTag(qualifiedName: string, kind: RecordKind, layout: string)

  /** The blocks written to the diagnostic stream, oldest first. */
  type Log = seq<string>

  /** The separator line written before a record's layout. */
  function Separator(name: string): (s: string)
    ensures StartsWith(s, SeparatorPrefix, false) && EndsWith(s, "\n", false)
    ensures s[|SeparatorPrefix|..|s| - 1] == name
  {
    SeparatorPrefix + name + "\n"
  }

  /** One emitted block: the separator line followed by the layout text verbatim. */
  function Block(name: string, layout: string): string {
    Separator(name) + layout
  }

  /** `ParsedArgs["filter"]`: `operator[]` yields "" for a missing key. */
  function FilterOf(args: ParsedArgs): string {
    if FilterKey in args then args[FilterKey] else ""
  }

  /** The filter admits a name that contains it as an infix; the empty filter admits every name. */
  ghost predicate Admits(filter: string, name: string) {
    exists pre, post :: name == pre + filter + post
  }

  /** Every base of a C++ record resolves; a C record has no bases to check. */
  predicate BasesResolve(kind: RecordKind) {
    match kind
    case CRecord => true
    case CxxRecord(bases) => forall i | 0 <= i < |bases| :: bases[i]
  }

  /** The declaration is a record the filter admits and whose bases all resolve. */
  ghost predicate Eligible(args: ParsedArgs, d: TagDecl) {
    d.RecordTag? && Admits(FilterOf(args), d.qualifiedName) && BasesResolve(d.kind)
  }

  /** The source's filter test (`filter != "" && find == npos` rejects) is plain infix containment. */
  lemma FilterTestIsInfix(filter: string, name: string)
    ensures (filter == "" || Contains(name, filter)) <==> Admits(filter, name)
  {
    ContainsIffInfix(name, filter);
    if filter == "" {
      assert name == [] + filter + name;
    }
  }

  /**
   One call of `HandleTagDeclDefinition`: appends exactly one block when the
   declaration is eligible and leaves the log alone otherwise.
   */
  method HandleTagDeclDefinition(args: ParsedArgs, d: TagDecl, log: Log) returns (out: Log)
    ensures d.RecordTag? && Eligible(args, d) ==> out == log + [Block(d.qualifiedName, d.layout)]
    ensures !Eligible(args, d) ==> out == log
  {
    out := log;
    if d.NonRecordTag? {
      return;
    }
    var filter := FilterOf(args);
    var name := d.qualifiedName;
    FilterTestIsInfix(filter, name);
    if filter != "" && FindFrom(name, filter, 0).None? {
      return;
    }
    if d.kind.CxxRecord? {
      var bases := d.kind.baseResolves;
      var k := 0;
      while k < |bases|
        invariant k <= |bases|
        invariant forall j | 0 <= j < k :: bases[j]
      {
        if !bases[k] {
          return;
        }
        k := k + 1;
      }
    }
    out := log + [Block(name, d.layout)];
  }

  /** The blocks a sequence of calls appends: one per eligible declaration, in call order. */
  ghost function EmittedBlocks(args: ParsedArgs, ds: seq<TagDecl>): Log {
    if |ds| == 0 then []
    else
      var rest := EmittedBlocks(args, ds[..|ds| - 1]);
      var d := ds[|ds| - 1];
      if Eligible(args, d) then rest + [Block(d.qualifiedName, d.layout)] else rest
  }

  /** Clang's callbacks for the definitions `ds`, one after the other, against the same options. */
  method HandleAll(args: ParsedArgs, ds: seq<TagDecl>, log: Log) returns (out: Log)
    ensures out == log + EmittedBlocks(args, ds)
  {
    out := log;
    var k := 0;
    while k < |ds|
      invariant k <= |ds|
      invariant out == log + EmittedBlocks(args, ds[..k])
    {
      assert ds[..k + 1][..k] == ds[..k];
      out := HandleTagDeclDefinition(args, ds[k], out);
      k := k + 1;
    }
    assert ds[..|ds|] == ds;
  }

  /** Number of eligible declarations among `ds`. */
  ghost function EligibleCount(args: ParsedArgs, ds: seq<TagDecl>): nat {
    if |ds| == 0 then 0
    else EligibleCount(args, ds[..|ds| - 1]) + (if Eligible(args, ds[|ds| - 1]) then 1 else 0)
  }

  /** Nothing is deduplicated: every eligible call contributes its own block. */
  lemma {:induction false} EmittedBlocksCount(args: ParsedArgs, ds: seq<TagDecl>)
    ensures |EmittedBlocks(args, ds)| == EligibleCount(args, ds)
  {
    if |ds| > 0 {
      EmittedBlocksCount(args, ds[..|ds| - 1]);
    }
  }

  /** Reporting the same eligible record twice writes its block twice. */
  lemma RepeatedRecordRepeatsBlock(args: ParsedArgs, d: TagDecl)
    requires d.RecordTag? && Eligible(args, d)
    ensures EmittedBlocks(args, [d, d]) == [Block(d.qualifiedName, d.layout), Block(d.qualifiedName, d.layout)]
  {
    var b := Block(d.qualifiedName, d.layout);
    assert [d][..0] == [];
    assert EmittedBlocks(args, [d]) == [b];
    assert [d, d][..1] == [d];
  }

  /**
   A block can be read back: for names without a newline (clang's qualified
   names have none), the block fixes both the record's name and its layout text.
   */
  lemma BlockDeterminesRecord(name1: string, layout1: string, name2: string, layout2: string)
    requires '\n' !in name1 && '\n' !in name2
    requires Block(name1, layout1) == Block(name2, layout2)
    ensures name1 == name2 && layout1 == layout2
  {
    var b := Block(name1, layout1);
    var p := |SeparatorPrefix|;
    assert b == SeparatorPrefix + (name1 + "\n" + layout1);
    assert b == SeparatorPrefix + (name2 + "\n" + layout2);
    var t1 := name1 + "\n" + layout1;
    var t2 := name2 + "\n" + layout2;
    assert t1 == b[p..] == t2;
    assert forall k | 0 <= k < |name1| :: t1[k] == name1[k] && t1[k] != '\n';
    assert forall k | 0 <= k < |name2| :: t2[k] == name2[k] && t2[k] != '\n';
    assert t1[|name1|] == '\n' && t2[|name2|] == '\n';
    assert |name1| == |name2|;
    assert name1 == t1[..|name1|] == t2[..|name2|] == name2;
    assert layout1 == t1[|name1| + 1..] == t2[|name2| + 1..] == layout2;
  }

  /**
   After a successful parse with no filter argument, the filter is empty and
   every record whose bases resolve is dumped.
   */
  lemma UnfilteredSessionDumpsResolvedRecords(state: ParsedArgs, argv: seq<string>, d: TagDecl)
    requires ParseArgs(state, argv).accepted
    requires forall i | 0 <= i < |argv| :: !IsFilterArg(argv[i])
    requires d.RecordTag?
    ensures Eligible(ParseArgs(state, argv).args, d) <==> BasesResolve(d.kind)
  {
    var args := ParseArgs(state, argv).args;
    assert FilterOf(args) == "";
    FilterTestIsInfix("", d.qualifiedName);
  }
}
