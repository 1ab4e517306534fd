/**
 `LayoutDumpAction::ParseArgs`: the plugin's option parser. It fills a
 string-keyed map with two entries, `verbose` and `filter`, in two passes over
 the plugin arguments, and returns false when help was requested.
 */
module Options {
  import opened Wrappers
  import opened StringUtil

  const VerboseKey: string := "verbose"
  const FilterKey: string := "filter"

  const HelpFlag: string := "--help"
  const VerboseFlag: string := "--verbose"
  const FilterPrefix: string := "--filter="

  /** The parser cuts filter arguments at a hard-coded offset of 9. */
  const FilterPrefixLength: nat := 9

  /** The action's `std::map<std::string, std::string>` of parsed options. */
  type ParsedArgs = map<string, string>

  /** The boolean `ParseArgs` returns together with the map it leaves behind. */
  datatype ParseResult = ParseResult(accepted: bool, args: ParsedArgs)

  /** An argument the second pass treats as a filter setting. */
  predicate IsFilterArg(arg: string) {
    StartsWith(arg, FilterPrefix, false)
  }

  /** `arg.substr(9)` of a filter argument: what follows `--filter=`. */
  function FilterValue(arg: string): (v: string)
    requires IsFilterArg(arg)
    ensures arg == FilterPrefix + v
  {
    assert |FilterPrefix| == FilterPrefixLength;
    assert arg == arg[..FilterPrefixLength] + arg[FilterPrefixLength..];
    arg[FilterPrefixLength..]
  }

  /** An argument neither pass reacts to. */
  predicate IsUnrecognised(arg: string) {
    arg != HelpFlag && arg != VerboseFlag && !IsFilterArg(arg)
  }

  /** Index `i` holds the last filter argument of `args`. */
  predicate IsLastFilter(args: seq<string>, i: nat)
    requires i < |args|
  {
    IsFilterArg(args[i]) && forall j | i < j < |args| :: !IsFilterArg(args[j])
  }

  /** Index `i` holds the first `--help` of `args`. */
  predicate IsFirstHelp(args: seq<string>, i: nat)
    requires i < |args|
  {
    args[i] == HelpFlag && HelpFlag !in args[..i]
  }

  /** What the first pass leaves: whether it stopped at `--help`, and the `verbose` value. */
  datatype FlagScan = FlagScan(help: bool, verbose: string)

  /**
   The first pass, continuing from `verbose`: stop at the first `--help`; each
   `--verbose` before it sets `verbose` to "true".
   */
  function ScanFlags(args: seq<string>, verbose: string): (r: FlagScan)
    ensures r.help <==> HelpFlag in args
    ensures !r.help ==> r.verbose == if VerboseFlag in args then "true" else verbose
    ensures forall i | 0 <= i < |args| && IsFirstHelp(args, i) ::
              r.verbose == if VerboseFlag in args[..i] then "true" else verbose
  {
    if |args| == 0 then FlagScan(false, verbose)
    else if args[0] == HelpFlag then FlagScan(true, verbose)
    else
      var rest := ScanFlags(args[1..], if args[0] == VerboseFlag then "true" else verbose);
      assert forall i | 1 <= i < |args| :: args[..i] == [args[0]] + args[1..][..i - 1];
      assert forall i | 1 <= i < |args| :: IsFirstHelp(args, i) ==> IsFirstHelp(args[1..], i - 1);
      assert args == [args[0]] + args[1..];
      rest
  }

  /**
   The second pass, continuing from `filter`: every filter argument replaces
   the value, so the last one wins.
   */
  function ScanFilters(args: seq<string>, filter: string): (r: string)
    ensures (forall i | 0 <= i < |args| :: !IsFilterArg(args[i])) ==> r == filter
    ensures forall i | 0 <= i < |args| && IsLastFilter(args, i) :: r == FilterValue(args[i])
  {
    if |args| == 0 then filter
    else
      var next := if IsFilterArg(args[0]) then FilterValue(args[0]) else filter;
      var r := ScanFilters(args[1..], next);
      assert forall i | 1 <= i < |args| :: IsLastFilter(args, i) ==> IsLastFilter(args[1..], i - 1);
      assert IsLastFilter(args, 0) ==> forall i | 0 <= i < |args[1..]| :: !IsFilterArg(args[1..][i]);
      r
  }

  /**
   `ParseArgs` applied to the action's map `state` (empty when clang calls it).
   Both keys get their defaults, the first pass runs, and the second pass runs
   only when no `--help` was seen.
   */
  function ParseArgs(state: ParsedArgs, args: seq<string>): (r: ParseResult)
    ensures r.args.Keys == state.Keys + {VerboseKey, FilterKey}
    ensures forall k | k in state && k != VerboseKey && k != FilterKey :: r.args[k] == state[k]
    ensures !r.accepted <==> HelpFlag in args
    ensures !r.accepted ==> r.args[FilterKey] == ""
    ensures forall i | 0 <= i < |args| && IsFirstHelp(args, i) ::
              r.args[VerboseKey] == if VerboseFlag in args[..i] then "true" else "false"
    ensures r.accepted ==> r.args[VerboseKey] == if VerboseFlag in args then "true" else "false"
    ensures r.accepted && (forall i | 0 <= i < |args| :: !IsFilterArg(args[i])) ==> r.args[FilterKey] == ""
    ensures r.accepted ==> forall i | 0 <= i < |args| && IsLastFilter(args, i) ::
              r.args[FilterKey] == FilterValue(args[i])
  {
    var defaults := state[VerboseKey := "false"][FilterKey := ""];
    var flags := ScanFlags(args, "false");
    var afterFlags := defaults[VerboseKey := flags.verbose];
    if flags.help then ParseResult(false, afterFlags)
    else ParseResult(true, afterFlags[FilterKey := ScanFilters(args, "")])
  }

  /** Whenever some filter argument is present, one of them is the last. */
  lemma {:induction false} LastFilterExists(args: seq<string>, k: nat)
    requires k < |args| && IsFilterArg(args[k])
    ensures exists i: nat :: i < |args| && IsLastFilter(args, i)
    decreases |args| - k
  {
    if !IsLastFilter(args, k) {
      var j :| k < j < |args| && IsFilterArg(args[j]);
      LastFilterExists(args, j);
    }
  }

  /**
   On success the filter is the value of the last `--filter=` argument, or ""
   when there is none.
   */
  lemma ParsedFilterIsLastFilterValue(state: ParsedArgs, args: seq<string>)
    requires ParseArgs(state, args).accepted
    ensures var filter := ParseArgs(state, args).args[FilterKey];
            || (exists i: nat :: i < |args| && IsLastFilter(args, i) && filter == FilterValue(args[i]))
            || ((forall i | 0 <= i < |args| :: !IsFilterArg(args[i])) && filter == "")
  {
    if exists k: nat :: k < |args| && IsFilterArg(args[k]) {
      var k: nat :| k < |args| && IsFilterArg(args[k]);
      LastFilterExists(args, k);
    }
  }

  /** An unrecognised argument anywhere leaves the first pass unchanged. */
  lemma {:induction false} ScanFlagsIgnores(pre: seq<string>, t: string, post: seq<string>, verbose: string)
    requires IsUnrecognised(t)
    ensures ScanFlags(pre + [t] + post, verbose) == ScanFlags(pre + post, verbose)
  {
    if |pre| == 0 {
      assert pre + [t] + post == [t] + post;
      assert ([t] + post)[1..] == post;
      assert pre + post == post;
    } else {
      assert (pre + [t] + post)[1..] == pre[1..] + [t] + post;
      assert (pre + post)[1..] == pre[1..] + post;
      ScanFlagsIgnores(pre[1..], t, post, if pre[0] == VerboseFlag then "true" else verbose);
    }
  }

  /** An unrecognised argument anywhere leaves the second pass unchanged. */
  lemma {:induction false} ScanFiltersIgnores(pre: seq<string>, t: string, post: seq<string>, filter: string)
    requires IsUnrecognised(t)
    ensures ScanFilters(pre + [t] + post, filter) == ScanFilters(pre + post, filter)
  {
    if |pre| == 0 {
      assert pre + [t] + post == [t] + post;
      assert ([t] + post)[1..] == post;
      assert pre + post == post;
    } else {
      assert (pre + [t] + post)[1..] == pre[1..] + [t] + post;
      assert (pre + post)[1..] == pre[1..] + post;
      ScanFiltersIgnores(pre[1..], t, post, if IsFilterArg(pre[0]) then FilterValue(pre[0]) else filter);
    }
  }

  /** Inserting an unrecognised argument anywhere changes neither the verdict nor the map. */
  lemma UnrecognisedArgumentIgnored(state: ParsedArgs, pre: seq<string>, t: string, post: seq<string>)
    requires IsUnrecognised(t)
    ensures ParseArgs(state, pre + [t] + post) == ParseArgs(state, pre + post)
  {
    ScanFlagsIgnores(pre, t, post, "false");
    ScanFiltersIgnores(pre, t, post, "");
  }

  /** The bare `--filter=` argument sets the empty filter. */
  lemma BareFilterIsEmpty()
    ensures IsFilterArg(FilterPrefix) && FilterValue(FilterPrefix) == ""
  {
  }
}
