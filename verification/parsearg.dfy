/** Command-line argument consumer (src/parsearg.c). The global `cp_argv[0..cp_argc)` is a
    sequence of strings; each operation returns its result together with the argument
    list it leaves behind. The front ends set `cp_argv = argv + 1` (src/main.c:122), so
    the slot just before the list is `argv[0]`, the program name. */
module ParseArg {
  import opened Wrappers

  /** A result and the argument list after the call. */
  datatype Parsed<T> = Parsed(result: T, args: seq<string>)

  /** Reference removal: every element but the one at `i`, in order. */
  function Remove(args: seq<string>, i: nat): (r: seq<string>)
    requires i < |args|
    ensures |r| == |args| - 1
    ensures forall k :: 0 <= k < i ==> r[k] == args[k]
    ensures forall k :: i <= k < |r| ==> r[k] == args[k + 1]
  {
    args[..i] + args[i + 1..]
  }

  /** pop(index): shifts every later argument one slot down, then drops the last slot. */
  method Pop(args: seq<string>, index: nat) returns (r: seq<string>)
    requires index < |args|
    ensures |r| == |args| - 1
    ensures forall k :: 0 <= k < index ==> r[k] == args[k]
    ensures forall k :: index <= k < |r| ==> r[k] == args[k + 1]
    ensures r == Remove(args, index)
  {
    var a := args;
    var i := index;
    while i < |a| - 1
      invariant index <= i < |a|
      invariant |a| == |args|
      invariant forall k :: 0 <= k < index ==> a[k] == args[k]
      invariant forall k :: index <= k < i ==> a[k] == args[k + 1]
      invariant forall k :: i <= k < |a| ==> a[k] == args[k]
    {
      a := a[i := a[i + 1]];
      i := i + 1;
    }
    r := a[..|a| - 1];
    assert forall k :: 0 <= k < |r| ==> r[k] == Remove(args, index)[k];
  }

  /** CP_ParseAssertNoMoreArgs: 0 when every argument was consumed, -1 otherwise. */
  function AssertNoMoreArgs(args: seq<string>): (r: int)
    ensures r == 0 || r == -1
    ensures r == 0 <==> |args| == 0
  {
    if |args| > 0 then -1 else 0
  }

  /** CP_ParseOneArg: takes the first argument, or NULL when there is none. */
  function ParseOneArg(args: seq<string>): (r: Parsed<Option<string>>)
    ensures |args| == 0 ==> r == Parsed(None, args)
    ensures |args| > 0 ==> r == Parsed(Some(args[0]), args[1..])
  {
    if |args| == 0 then Parsed(None, args)
    else Parsed(Some(args[0]), Remove(args, 0))
  }

  /** The first position of `x` in `xs`. */
  function FirstIndex(xs: seq<string>, x: string): (r: Option<nat>)
    ensures r.Some? ==> r.value < |xs| && xs[r.value] == x
    ensures r.Some? ==> forall k :: 0 <= k < r.value ==> xs[k] != x
    ensures r.None? <==> forall k :: 0 <= k < |xs| ==> xs[k] != x
  {
    if |xs| == 0 then None
    else if xs[0] == x then Some(0)
    else
      match FirstIndex(xs[1..], x)
      case None => None
      case Some(k) => Some(k + 1)
  }

  /** The first position of an argument that is one of `flags`. */
  function FirstIn(xs: seq<string>, flags: seq<string>): (r: Option<nat>)
    ensures r.Some? ==> r.value < |xs| && xs[r.value] in flags
    ensures r.Some? ==> forall k :: 0 <= k < r.value ==> xs[k] !in flags
    ensures r.None? <==> forall k :: 0 <= k < |xs| ==> xs[k] !in flags
  {
    if |xs| == 0 then None
    else if xs[0] in flags then Some(0)
    else
      match FirstIn(xs[1..], flags)
      case None => None
      case Some(k) => Some(k + 1)
  }

  /** CP_ParseFlag's loop from index `i`, none of whose predecessors is the flag. */
  function ParseFlagFrom(args: seq<string>, flag: string, i: nat): (r: Parsed<int>)
    requires i <= |args|
    requires flag !in args[..i]
    ensures r.result == 0 || r.result == 1
    ensures r.result == 1 <==> flag in args
    ensures r.result == 0 ==> r.args == args
    ensures r.result == 1 ==> FirstIndex(args, flag).Some? && r.args == Remove(args, FirstIndex(args, flag).value)
    decreases |args| - i
  {
    if i >= |args| then
      assert args[..i] == args;
      Parsed(0, args)
    else if args[i] == flag then
      Parsed(1, Remove(args, i))
    else
      assert args[..i + 1] == args[..i] + [args[i]];
      ParseFlagFrom(args, flag, i + 1)
  }

  /** CP_ParseFlag: removes the first argument equal to `flag` and returns 1, or returns 0
      and leaves the list alone. */
  function ParseFlag(args: seq<string>, flag: string): (r: Parsed<int>)
    ensures r.result == 0 || r.result == 1
    ensures r.result == 1 <==> flag in args
    ensures r.result == 0 ==> r.args == args
    ensures r.result == 1 ==> exists k :: 0 <= k < |args| && args[k] == flag && flag !in args[..k] && r.args == Remove(args, k)
  {
    ParseFlagFrom(args, flag, 0)
  }

  /** The string in slot `i`, where slot -1 is the one before the list, argv[0]. */
  function SlotAt(args: seq<string>, programName: string, i: int): string
    requires -1 <= i < |args|
  {
    if i == -1 then programName else args[i]
  }

  /** The outer loop of CP_ParseFlagEx at argument index `i`, with `rv` the flag index found so far. */
  function FlagExOuter(args: seq<string>, flags: seq<string>, programName: string, i: int, rv: int): (r: Parsed<int>)
    requires 0 <= i <= |args|
    requires rv >= -1
    ensures r.result >= -1 && (rv < |flags| ==> r.result < |flags|)
    ensures rv >= 0 ==> r.args == args
    ensures |r.args| == |args| || |r.args| + 1 == |args|
    decreases |args| - i, |flags| + 1
  {
    if i < |args| then FlagExInner(args, flags, programName, i, 0, rv)
    else Parsed(rv, args)
  }

  /** The inner loop of CP_ParseFlagEx: compares slot `i` with `flags[j..]`. After a removal
      `i` is decremented and the inner loop goes on comparing the new, shifted slot. */
  function FlagExInner(args: seq<string>, flags: seq<string>, programName: string, i: int, j: nat, rv: int): (r: Parsed<int>)
    requires -1 <= i < |args|
    requires j <= |flags|
    requires rv >= -1
    requires i == -1 ==> rv >= 0
    ensures r.result >= -1 && (rv < |flags| ==> r.result < |flags|)
    ensures rv >= 0 ==> r.args == args
    ensures |r.args| == |args| || |r.args| + 1 == |args|
    decreases |args| - i, |flags| - j
  {
    if j >= |flags| then FlagExOuter(args, flags, programName, i + 1, rv)
    else if SlotAt(args, programName, i) == flags[j] then
      if rv != -1 then Parsed(-1, args)
      else FlagExInner(Remove(args, i), flags, programName, i - 1, j + 1, j)
    else FlagExInner(args, flags, programName, i, j + 1, rv)
  }

  /** Reference outcome of CP_ParseFlagEx. The first argument that is any of the flags is
      removed. The result is the index of the first flag it equals, unless a later argument
      is also a flag, or that argument was the very first one and argv[0] equals one of the
      flags after the matched one: then the result is -1. */
  function FlagExSpec(args: seq<string>, flags: seq<string>, programName: string): Parsed<int> {
    match FirstIn(args, flags)
    case None => Parsed(-1, args)
    case Some(k) =>
      var j := FirstIndex(flags, args[k]).value;
      var rest := Remove(args, k);
      if (k == 0 && programName in flags[j + 1..]) || FirstIn(args[k + 1..], flags).Some? then Parsed(-1, rest)
      else Parsed(j, rest)
  }

  /** Once a flag was found, the inner loop ends the search as soon as its slot is a flag. */
  lemma {:induction false} InnerAfterMatch(args: seq<string>, flags: seq<string>, programName: string, i: int, j: nat, rv: int)
    requires -1 <= i < |args|
    requires rv >= 0
    requires j <= |flags|
    ensures FlagExInner(args, flags, programName, i, j, rv) ==
              if SlotAt(args, programName, i) in flags[j..] then Parsed(-1, args)
              else FlagExOuter(args, flags, programName, i + 1, rv)
    decreases |flags| - j
  {
    if j < |flags| {
      assert flags[j..] == [flags[j]] + flags[j + 1..];
      if SlotAt(args, programName, i) != flags[j] {
        InnerAfterMatch(args, flags, programName, i, j + 1, rv);
      }
    }
  }

  /** Once a flag was found, any further flag among the remaining arguments gives -1. */
  lemma {:induction false} OuterAfterMatch(args: seq<string>, flags: seq<string>, programName: string, i: nat, rv: int)
    requires i <= |args|
    requires rv >= 0
    ensures FlagExOuter(args, flags, programName, i, rv) ==
              if FirstIn(args[i..], flags).Some? then Parsed(-1, args) else Parsed(rv, args)
    decreases |args| - i
  {
    if i < |args| {
      InnerAfterMatch(args, flags, programName, i, 0, rv);
      assert flags[0..] == flags;
      assert args[i..][1..] == args[i + 1..];
      if args[i] !in flags {
        OuterAfterMatch(args, flags, programName, i + 1, rv);
      }
    }
  }

  /** Before any flag was found, the inner loop either passes over slot `i` or removes it
      at the first flag it equals and moves on to the shifted slot. */
  lemma {:induction false} InnerBeforeMatch(args: seq<string>, flags: seq<string>, programName: string, i: nat, j: nat)
    requires i < |args|
    requires j <= |flags|
    requires args[i] !in flags[..j]
    ensures args[i] !in flags[j..] ==>
              FlagExInner(args, flags, programName, i, j, -1) == FlagExOuter(args, flags, programName, i + 1, -1)
    ensures args[i] in flags[j..] ==>
              && FirstIndex(flags, args[i]).Some?
              && var m := FirstIndex(flags, args[i]).value;
                 FlagExInner(args, flags, programName, i, j, -1) ==
                 FlagExInner(Remove(args, i), flags, programName, i - 1, m + 1, m)
    decreases |flags| - j
  {
    if j < |flags| {
      assert flags[j..] == [flags[j]] + flags[j + 1..];
      if args[i] == flags[j] {
      } else {
        assert flags[..j + 1] == flags[..j] + [flags[j]];
        InnerBeforeMatch(args, flags, programName, i, j + 1);
      }
    }
  }

  /** The loop of CP_ParseFlagEx, started at an index before which no argument is a flag,
      computes the reference outcome. */
  lemma {:induction false} OuterBeforeMatch(args: seq<string>, flags: seq<string>, programName: string, i: nat)
    requires i <= |args|
    requires forall k :: 0 <= k < i ==> args[k] !in flags
    ensures FlagExOuter(args, flags, programName, i, -1) == FlagExSpec(args, flags, programName)
    decreases |args| - i
  {
    if i < |args| {
      assert flags[..0] == [];
      assert flags[0..] == flags;
      InnerBeforeMatch(args, flags, programName, i, 0);
      if args[i] in flags {
        assert FirstIn(args, flags) == Some(i);
        var m := FirstIndex(flags, args[i]).value;
        var rest := Remove(args, i);
        InnerAfterMatch(rest, flags, programName, i - 1, m + 1, m);
        if i > 0 {
          assert SlotAt(rest, programName, i - 1) == args[i - 1];
          assert args[i - 1] !in flags[m + 1..];
        }
        OuterAfterMatch(rest, flags, programName, i, m);
        assert rest[i..] == args[i + 1..];
      } else {
        OuterBeforeMatch(args, flags, programName, i + 1);
      }
    } else {
      assert FirstIn(args, flags).None?;
    }
  }

  /** CP_ParseFlagEx(flagc, flags): takes at most one of several mutually exclusive flags. */
  function ParseFlagEx(args: seq<string>, flags: seq<string>, programName: string): (r: Parsed<int>)
    ensures r == FlagExSpec(args, flags, programName)
    ensures -1 <= r.result < |flags|
  {
    OuterBeforeMatch(args, flags, programName, 0);
    FlagExOuter(args, flags, programName, 0, -1)
  }

  /** The shifted-slot comparisons are harmless unless the program name is itself one of the
      flags: then the search ends with the first flag found, or with -1 when another
      argument is a flag too. */
  lemma FlagExWhenProgramNameIsNoFlag(args: seq<string>, flags: seq<string>, programName: string)
    requires programName !in flags
    requires FirstIn(args, flags).Some?
    ensures var k := FirstIn(args, flags).value;
            ParseFlagEx(args, flags, programName).args == Remove(args, k)
            && (ParseFlagEx(args, flags, programName).result == -1 <==> FirstIn(args[k + 1..], flags).Some?)
  {
    var k := FirstIn(args, flags).value;
    var j := FirstIndex(flags, args[k]).value;
    assert programName !in flags[j + 1..];
  }

  /** A flag that is the first argument, followed in the flag list by the program name,
      is removed and reported as a conflict. */
  lemma FlagExProgramNameConflict(flag: string, programName: string, rest: seq<string>)
    requires flag != programName
    ensures ParseFlagEx([flag] + rest, [flag, programName], programName) == Parsed(-1, rest)
  {
    var args := [flag] + rest;
    var flags := [flag, programName];
    assert FirstIn(args, flags) == Some(0);
    assert FirstIndex(flags, flag) == Some(0);
    assert flags[1..] == [programName];
    assert Remove(args, 0) == rest;
  }

  /** Intended outcome of CP_ParseFlagEx: the first argument that is a flag is removed and
      its flag index returned, or -1 when a later argument is a flag as well. */
  function FlagExIntended(args: seq<string>, flags: seq<string>): Parsed<int> {
    match FirstIn(args, flags)
    case None => Parsed(-1, args)
    case Some(k) =>
      var rest := Remove(args, k);
      if FirstIn(args[k + 1..], flags).Some? then Parsed(-1, rest)
      else Parsed(FirstIndex(flags, args[k]).value, rest)
  }

  /** Corrected loop of CP_ParseFlagEx: after a removal the inner loop stops, and the outer
      loop examines the argument that slid into slot `i`. */
  function FixedFlagExFrom(args: seq<string>, flags: seq<string>, i: nat, rv: int): (r: Parsed<int>)
    requires i <= |args|
    ensures rv >= -1 && rv < |flags| ==> -1 <= r.result < |flags|
    ensures rv >= 0 ==> r.args == args
    ensures |r.args| == |args| || |r.args| + 1 == |args|
    ensures i <= |r.args| && r.args[..i] == args[..i]
    decreases |args| - i
  {
    if i >= |args| then Parsed(rv, args)
    else
      match FirstIndex(flags, args[i])
      case None => FixedFlagExFrom(args, flags, i + 1, rv)
      case Some(j) =>
        if rv != -1 then Parsed(-1, args)
        else FixedFlagExFrom(Remove(args, i), flags, i, j)
  }

  /** Once a flag was found, any further flag gives -1. */
  lemma {:induction false} FixedAfterMatch(args: seq<string>, flags: seq<string>, i: nat, rv: int)
    requires i <= |args|
    requires rv >= 0
    ensures FixedFlagExFrom(args, flags, i, rv) ==
              if FirstIn(args[i..], flags).Some? then Parsed(-1, args) else Parsed(rv, args)
    decreases |args| - i
  {
    if i < |args| {
      assert args[i..][1..] == args[i + 1..];
      if args[i] !in flags {
        FixedAfterMatch(args, flags, i + 1, rv);
      }
    }
  }

  /** Started where no earlier argument is a flag, the corrected loop gives the intended outcome. */
  lemma {:induction false} FixedBeforeMatch(args: seq<string>, flags: seq<string>, i: nat)
    requires i <= |args|
    requires forall k :: 0 <= k < i ==> args[k] !in flags
    ensures FixedFlagExFrom(args, flags, i, -1) == FlagExIntended(args, flags)
    decreases |args| - i
  {
    if i < |args| {
      if args[i] in flags {
        assert FirstIn(args, flags) == Some(i);
        var rest := Remove(args, i);
        FixedAfterMatch(rest, flags, i, FirstIndex(flags, args[i]).value);
        assert rest[i..] == args[i + 1..];
      } else {
        FixedBeforeMatch(args, flags, i + 1);
      }
    } else {
      assert FirstIn(args, flags).None?;
    }
  }

  /** CP_ParseFlagEx with the inner loop left after a removal. */
  function FixedParseFlagEx(args: seq<string>, flags: seq<string>): (r: Parsed<int>)
    ensures r == FlagExIntended(args, flags)
    ensures -1 <= r.result < |flags|
  {
    FixedBeforeMatch(args, flags, 0);
    FixedFlagExFrom(args, flags, 0, -1)
  }

  /** The loop as written agrees with the intended outcome exactly when the program name
      does not decide it. */
  lemma FlagExAsWrittenVersusIntended(args: seq<string>, flags: seq<string>, programName: string)
    ensures programName !in flags ==> ParseFlagEx(args, flags, programName) == FixedParseFlagEx(args, flags)
    ensures ParseFlagEx(args, flags, programName).args == FixedParseFlagEx(args, flags).args
  {
    if programName !in flags && FirstIn(args, flags).Some? {
      var k := FirstIn(args, flags).value;
      var j := FirstIndex(flags, args[k]).value;
      assert programName !in flags[j + 1..];
    }
  }

  /** The discrepancy: program "cp" and flags "-a", "cp" on the command line `cp -a`. The loop
      as written reads argv[0] after removing "-a" and reports a conflict. */
  lemma FlagExReadsProgramName()
    ensures ParseFlagEx(["-a"], ["-a", "cp"], "cp") == Parsed(-1, [])
    ensures FixedParseFlagEx(["-a"], ["-a", "cp"]) == Parsed(0, [])
  {
    FlagExProgramNameConflict("-a", "cp", []);
    assert ["-a"] + [] == ["-a"];
    assert FirstIn(["-a"], ["-a", "cp"]) == Some(0);
    assert FirstIndex(["-a", "cp"], "-a") == Some(0);
    assert ["-a"][1..] == [];
  }

  /** `arg` begins with `option`: strncmp(arg, option, strlen(option)) == 0. */
  predicate HasPrefix(arg: string, option: string) {
    |option| <= |arg| && arg[..|option|] == option
  }

  /** How the value of a matching option is found: in the argument itself after the option
      name and an optional '=', or in the next argument. */
  datatype Taken = Missing | Took(value: string, used: nat)

  /** The value of the option matched at `k` and the number of arguments it occupies. */
  function TakeValue(args: seq<string>, option: string, k: nat): (r: Taken)
    requires k < |args| && HasPrefix(args[k], option)
    ensures r.Took? ==> (r.used == 1 || r.used == 2) && k + r.used <= |args|
    ensures r.Took? && r.used == 1 ==>
              || (args[k] == option + r.value && r.value != "" && r.value[0] != '=')
              || (args[k] == option + "=" + r.value && r.value != "")
    ensures r.Took? && r.used == 2 ==> args[k] == option && r.value == args[k + 1]
    ensures r.Missing? <==> args[k] == option + "=" || (args[k] == option && k + 1 == |args|)
  {
    var arg := args[k];
    assert arg == option + arg[|option|..];
    if |arg| > |option| then
      var value := arg[|option|..];
      if value[0] == '=' then
        assert value == "=" + value[1..];
        if |value| == 1 then Missing else Took(value[1..], 1)
      else Took(value, 1)
    else if k + 1 == |args| then Missing
    else Took(args[k + 1], 2)
  }

  /** The list after the option at `k` and its value are removed. */
  function Consume(args: seq<string>, k: nat, used: nat): (r: seq<string>)
    requires used == 1 || used == 2
    requires k + used <= |args|
    ensures r == args[..k] + args[k + used..]
  {
    if used == 1 then Remove(args, k) else Remove(Remove(args, k), k)
  }

  /** The first argument that begins with `option`. */
  function FirstWithPrefix(args: seq<string>, option: string): (r: Option<nat>)
    ensures r.Some? ==> r.value < |args| && HasPrefix(args[r.value], option)
    ensures r.Some? ==> forall k :: 0 <= k < r.value ==> !HasPrefix(args[k], option)
    ensures r.None? <==> forall k :: 0 <= k < |args| ==> !HasPrefix(args[k], option)
  {
    if |args| == 0 then None
    else if HasPrefix(args[0], option) then Some(0)
    else
      match FirstWithPrefix(args[1..], option)
      case None => None
      case Some(k) => Some(k + 1)
  }

  /** The result of CP_ParseOption for the option matched at `k`. */
  function TakeOption(args: seq<string>, option: string, k: nat): (r: Parsed<Option<string>>)
    requires k < |args| && HasPrefix(args[k], option)
    ensures r.result.None? <==> args[k] == option + "=" || (args[k] == option && k + 1 == |args|)
    ensures r.result.None? ==> r.args == args
    ensures r.result.Some? && args[k] != option ==>
              && r.args == args[..k] + args[k + 1..]
              && (|| (args[k] == option + r.result.value && r.result.value != "" && r.result.value[0] != '=')
                  || (args[k] == option + "=" + r.result.value && r.result.value != ""))
    ensures r.result.Some? && args[k] == option ==>
              k + 1 < |args| && r.result.value == args[k + 1] && r.args == args[..k] + args[k + 2..]
  {
    match TakeValue(args, option, k)
    case Missing => Parsed(None, args)
    case Took(value, used) => Parsed(Some(value), Consume(args, k, used))
  }

  /** CP_ParseOption's loop from index `i`, none of whose predecessors matched. */
  function ParseOptionFrom(args: seq<string>, option: string, i: nat): (r: Parsed<Option<string>>)
    requires i <= |args|
    requires forall k :: 0 <= k < i ==> !HasPrefix(args[k], option)
    ensures FirstWithPrefix(args, option).None? ==> r == Parsed(None, args)
    ensures FirstWithPrefix(args, option).Some? ==> r == TakeOption(args, option, FirstWithPrefix(args, option).value)
    decreases |args| - i
  {
    if i >= |args| then Parsed(None, args)
    else if HasPrefix(args[i], option) then TakeOption(args, option, i)
    else ParseOptionFrom(args, option, i + 1)
  }

  /** CP_ParseOption: the value of the first argument that begins with `option`. "optVAL" and
      "opt=VAL" give VAL and remove one argument, "opt" VAL gives VAL and removes two;
      "opt=" and a trailing "opt" give NULL and remove nothing. */
  function ParseOption(args: seq<string>, option: string): (r: Parsed<Option<string>>)
    ensures r.result.None? ==> r.args == args
    ensures FirstWithPrefix(args, option).None? ==> r.result.None?
    ensures FirstWithPrefix(args, option).Some? ==>
              var k := FirstWithPrefix(args, option).value;
              && (r.result.None? <==> args[k] == option + "=" || (args[k] == option && k + 1 == |args|))
              && (r.result.Some? && args[k] != option ==>
                    && r.args == args[..k] + args[k + 1..]
                    && (|| (args[k] == option + r.result.value && r.result.value != "" && r.result.value[0] != '=')
                        || (args[k] == option + "=" + r.result.value && r.result.value != "")))
              && (r.result.Some? && args[k] == option ==>
                    k + 1 < |args| && r.result.value == args[k + 1] && r.args == args[..k] + args[k + 2..])
  {
    ParseOptionFrom(args, option, 0)
  }

  /** What CP_ParseOptionEx returns, the values it stored, and the list it leaves. */
  datatype OptionExResult = OptionExResult(code: int, values: seq<string>, args: seq<string>)

  /** CP_ParseOptionEx's loop at index `i` with the values collected so far. After a match
      the loop goes on at `i + 1`, past the argument that slid into slot `i`. */
  function OptionExLoop(args: seq<string>, option: string, valuec: int, i: nat, values: seq<string>): (r: OptionExResult)
    requires i <= |args| + 1
    requires |values| == 0 || |values| <= valuec
    ensures r.code >= 0 ==> r.code == |r.values|
    ensures r.code == -1 || r.code == -2 || r.code >= 0
    ensures |r.values| == 0 || |r.values| <= valuec
    ensures values <= r.values
    decreases |args| + 1 - i
  {
    if i >= |args| then OptionExResult(|values|, values, args)
    else if !HasPrefix(args[i], option) then OptionExLoop(args, option, valuec, i + 1, values)
    else
      match TakeValue(args, option, i)
      case Missing => OptionExResult(-1, values, args)
      case Took(value, used) =>
        var rest := Consume(args, i, used);
        if |values| >= valuec then OptionExResult(-2, values, rest)
        else OptionExLoop(rest, option, valuec, i + 1, values + [value])
  }

  /** Reference for CP_ParseOptionEx as one pass over the list: `kept` are the arguments
      passed over, `pending` those not yet reached. After a match the argument right after
      the consumed ones is passed over without being examined. */
  function OptionExRef(pending: seq<string>, option: string, valuec: int, kept: seq<string>, values: seq<string>): OptionExResult
    decreases |pending|
  {
    if |pending| == 0 then OptionExResult(|values|, values, kept)
    else if !HasPrefix(pending[0], option) then OptionExRef(pending[1..], option, valuec, kept + [pending[0]], values)
    else
      match TakeValue(pending, option, 0)
      case Missing => OptionExResult(-1, values, kept + pending)
      case Took(value, used) =>
        var after := pending[used..];
        if |values| >= valuec then OptionExResult(-2, values, kept + after)
        else if |after| == 0 then OptionExResult(|values| + 1, values + [value], kept)
        else OptionExRef(after[1..], option, valuec, kept + [after[0]], values + [value])
  }

  /** TakeValue only looks at the matched argument and the one after it. */
  lemma TakeValueShift(kept: seq<string>, pending: seq<string>, option: string)
    requires |pending| > 0 && HasPrefix(pending[0], option)
    ensures TakeValue(kept + pending, option, |kept|) == TakeValue(pending, option, 0)
  {
    var args := kept + pending;
    assert args[|kept|] == pending[0];
    if |pending| > 1 {
      assert args[|kept| + 1] == pending[1];
    }
  }

  /** One step of the loop at a matching argument whose value is stored: the loop goes on
      one past the slot, in the list with the option and its value removed. */
  lemma LoopStoresValue(kept: seq<string>, pending: seq<string>, option: string, valuec: int, values: seq<string>)
    requires |values| == 0 || |values| <= valuec
    requires |values| < valuec
    requires |pending| > 0 && HasPrefix(pending[0], option)
    requires TakeValue(pending, option, 0).Took?
    ensures var t := TakeValue(pending, option, 0);
            OptionExLoop(kept + pending, option, valuec, |kept|, values) ==
            OptionExLoop(kept + pending[t.used..], option, valuec, |kept| + 1, values + [t.value])
  {
    var args := kept + pending;
    assert args[|kept|] == pending[0];
    TakeValueShift(kept, pending, option);
    var t := TakeValue(pending, option, 0);
    assert Consume(args, |kept|, t.used) == kept + pending[t.used..];
  }

  /** Moving the first pending argument over to the kept ones leaves the whole list alone. */
  lemma ShiftFirst(kept: seq<string>, pending: seq<string>)
    requires |pending| > 0
    ensures kept + pending == (kept + [pending[0]]) + pending[1..]
  {
  }

  /** One step of the loop past an argument that does not begin with the option. */
  lemma LoopPassesOver(kept: seq<string>, pending: seq<string>, option: string, valuec: int, values: seq<string>)
    requires |values| == 0 || |values| <= valuec
    requires |pending| > 0 && !HasPrefix(pending[0], option)
    ensures OptionExLoop(kept + pending, option, valuec, |kept|, values) ==
            OptionExLoop((kept + [pending[0]]) + pending[1..], option, valuec, |kept| + 1, values)
  {
    assert (kept + pending)[|kept|] == pending[0];
    assert kept + pending == (kept + [pending[0]]) + pending[1..];
  }

  /** The loop ends at a matching argument whose value is missing or does not fit, as the
      reference does. */
  lemma LoopStopsAtMatch(kept: seq<string>, pending: seq<string>, option: string, valuec: int, values: seq<string>)
    requires |values| == 0 || |values| <= valuec
    requires |pending| > 0 && HasPrefix(pending[0], option)
    requires TakeValue(pending, option, 0).Missing? || |values| >= valuec
    ensures OptionExLoop(kept + pending, option, valuec, |kept|, values) == OptionExRef(pending, option, valuec, kept, values)
  {
    var args := kept + pending;
    assert args[|kept|] == pending[0];
    TakeValueShift(kept, pending, option);
    var t := TakeValue(pending, option, 0);
    if t.Took? {
      assert Consume(args, |kept|, t.used) == kept + pending[t.used..];
    }
  }

  /** The index-based loop and the one-pass reference agree. */
  lemma {:induction false} OptionExLoopIsRef(kept: seq<string>, pending: seq<string>, option: string, valuec: int, values: seq<string>)
    requires |values| == 0 || |values| <= valuec
    ensures OptionExLoop(kept + pending, option, valuec, |kept|, values) == OptionExRef(pending, option, valuec, kept, values)
    decreases |pending|, 1
  {
    if |pending| == 0 {
      assert kept + pending == kept;
    } else if !HasPrefix(pending[0], option) {
      LoopPassesOver(kept, pending, option, valuec, values);
      OptionExLoopIsRef(kept + [pending[0]], pending[1..], option, valuec, values);
    } else if TakeValue(pending, option, 0).Missing? || |values| >= valuec {
      LoopStopsAtMatch(kept, pending, option, valuec, values);
    } else {
      StoredValueIsRef(kept, pending, option, valuec, values);
    }
  }

  /** The case of OptionExLoopIsRef where a value is stored and the loop moves past the
      argument that slid into the slot. */
  lemma {:induction false} StoredValueIsRef(kept: seq<string>, pending: seq<string>, option: string, valuec: int, values: seq<string>)
    requires |values| < valuec
    requires |pending| > 0 && HasPrefix(pending[0], option)
    requires TakeValue(pending, option, 0).Took?
    ensures OptionExLoop(kept + pending, option, valuec, |kept|, values) == OptionExRef(pending, option, valuec, kept, values)
    decreases |pending|, 0
  {
    LoopStoresValue(kept, pending, option, valuec, values);
    var t := TakeValue(pending, option, 0);
    var after := pending[t.used..];
    if |after| > 0 {
      ShiftFirst(kept, after);
      OptionExLoopIsRef(kept + [after[0]], after[1..], option, valuec, values + [t.value]);
    } else {
      assert kept + after == kept;
    }
  }

  /** CP_ParseOptionEx(option, valuec, values): collects the values of every examined
      occurrence of `option`, in order, removing each; -1 when a value is missing and -2
      when a value arrives after `valuec` were stored (that occurrence is already removed). */
  function ParseOptionEx(args: seq<string>, option: string, valuec: int): (r: OptionExResult)
    ensures r == OptionExRef(args, option, valuec, [], [])
    ensures r.code == -1 || r.code == -2 || r.code >= 0
    ensures r.code >= 0 ==> r.code == |r.values|
    ensures |r.values| == 0 || |r.values| <= valuec
  {
    OptionExLoopIsRef([], args, option, valuec, []);
    assert [] + args == args;
    OptionExLoop(args, option, valuec, 0, [])
  }

  /** The argument that slides into the slot of a removed "opt=VAL" is never examined:
      it stays in the list even when it is another occurrence of the option. */
  lemma OptionExSkipsSlidIn(option: string, value: string, next: string, valuec: int)
    requires value != "" && valuec >= 1
    ensures ParseOptionEx([option + "=" + value, next], option, valuec) == OptionExResult(1, [value], [next])
  {
    var args := [option + "=" + value, next];
    assert args[0][..|option|] == option;
    assert args[0][|option|..] == "=" + value;
    assert TakeValue(args, option, 0) == Took(value, 1);
    assert args[1..] == [next];
    assert OptionExRef([], option, valuec, [] + [next], [] + [value]) == OptionExResult(1, [value], [next]);
    assert OptionExRef(args, option, valuec, [], []) == OptionExResult(1, [value], [next]);
  }

  /** Corrected loop of CP_ParseOptionEx: after a removal the loop stays at `i`, so the
      argument that slid into the slot is examined too. */
  function FixedOptionExLoop(args: seq<string>, option: string, valuec: int, i: nat, values: seq<string>): (r: OptionExResult)
    requires i <= |args|
    requires forall k :: 0 <= k < i ==> !HasPrefix(args[k], option)
    ensures r.code >= 0 ==> r.code == |r.values|
    ensures r.code >= 0 ==> forall k :: 0 <= k < |r.args| ==> !HasPrefix(r.args[k], option)
    decreases |args| - i
  {
    if i >= |args| then OptionExResult(|values|, values, args)
    else if !HasPrefix(args[i], option) then FixedOptionExLoop(args, option, valuec, i + 1, values)
    else
      match TakeValue(args, option, i)
      case Missing => OptionExResult(-1, values, args)
      case Took(value, used) =>
        var rest := Consume(args, i, used);
        if |values| >= valuec then OptionExResult(-2, values, rest)
        else FixedOptionExLoop(rest, option, valuec, i, values + [value])
  }

  /** Intended outcome of CP_ParseOptionEx as one pass: every occurrence is examined. */
  function OptionExIntended(pending: seq<string>, option: string, valuec: int, kept: seq<string>, values: seq<string>): OptionExResult
    decreases |pending|
  {
    if |pending| == 0 then OptionExResult(|values|, values, kept)
    else if !HasPrefix(pending[0], option) then OptionExIntended(pending[1..], option, valuec, kept + [pending[0]], values)
    else
      match TakeValue(pending, option, 0)
      case Missing => OptionExResult(-1, values, kept + pending)
      case Took(value, used) =>
        var after := pending[used..];
        if |values| >= valuec then OptionExResult(-2, values, kept + after)
        else OptionExIntended(after, option, valuec, kept, values + [value])
  }

  /** The corrected index-based loop and the one-pass intended outcome agree. */
  lemma {:induction false} FixedOptionExIsIntended(kept: seq<string>, pending: seq<string>, option: string, valuec: int, values: seq<string>)
    requires forall k :: 0 <= k < |kept| ==> !HasPrefix(kept[k], option)
    ensures FixedOptionExLoop(kept + pending, option, valuec, |kept|, values) == OptionExIntended(pending, option, valuec, kept, values)
    decreases |pending|
  {
    var args := kept + pending;
    if |pending| == 0 {
      assert args == kept;
    } else if !HasPrefix(pending[0], option) {
      assert args[|kept|] == pending[0];
      assert args == (kept + [pending[0]]) + pending[1..];
      FixedOptionExIsIntended(kept + [pending[0]], pending[1..], option, valuec, values);
    } else {
      assert args[|kept|] == pending[0];
      TakeValueShift(kept, pending, option);
      match TakeValue(pending, option, 0)
      case Missing =>
      case Took(value, used) =>
        var after := pending[used..];
        var rest := Consume(args, |kept|, used);
        assert rest == kept + after;
        if |values| < valuec {
          FixedOptionExIsIntended(kept, after, option, valuec, values + [value]);
        }
    }
  }

  /** CP_ParseOptionEx with the index held after a removal: on success no occurrence of
      the option is left in the list. */
  function FixedParseOptionEx(args: seq<string>, option: string, valuec: int): (r: OptionExResult)
    ensures r == OptionExIntended(args, option, valuec, [], [])
    ensures r.code >= 0 ==> r.code == |r.values|
    ensures r.code >= 0 ==> forall k :: 0 <= k < |r.args| ==> !HasPrefix(r.args[k], option)
  {
    FixedOptionExIsIntended([], args, option, valuec, []);
    assert [] + args == args;
    FixedOptionExLoop(args, option, valuec, 0, [])
  }

  /** The discrepancy: two consecutive "-o=a" "-o=b". As written the second is never
      examined and stays in the list; corrected, both values are collected. */
  lemma OptionExSkipsSecondOccurrence()
    ensures ParseOptionEx(["-o=a", "-o=b"], "-o", 2) == OptionExResult(1, ["a"], ["-o=b"])
    ensures FixedParseOptionEx(["-o=a", "-o=b"], "-o", 2) == OptionExResult(2, ["a", "b"], [])
  {
    OptionExSkipsSlidIn("-o", "a", "-o=b", 2);
    assert "-o" + "=" + "a" == "-o=a";
    var args := ["-o=a", "-o=b"];
    assert args[0][..2] == "-o" && args[0][2..] == "=a";
    assert TakeValue(args, "-o", 0) == Took("a", 1);
    assert args[1..] == ["-o=b"];
    var rest := ["-o=b"];
    assert rest[0][..2] == "-o" && rest[0][2..] == "=b";
    assert TakeValue(rest, "-o", 0) == Took("b", 1);
    assert rest[1..] == [];
    assert OptionExIntended([], "-o", 2, [], ["a", "b"]) == OptionExResult(2, ["a", "b"], []);
    assert OptionExIntended(rest, "-o", 2, [], ["a"]) == OptionExResult(2, ["a", "b"], []);
  }
}
