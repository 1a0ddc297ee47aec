// What a snapshot keeps of a command line: strip_prompt of scripts/claude-recover.py.

module CommandLine {

  const KEPT_VALUE_FLAGS: set<string> :=
    {"--resume", "-r", "--model", "--permission-mode", "--effort", "--add-dir", "--agent", "--session-id", "--name",
     "-n"}

  const VARIADIC_FLAGS: set<string> := {"--add-dir"}

  // What becomes of the next arguments that are not flags.
  datatype Skip = Nothing | Keep | KeepMany | Drop

  predicate IsFlag(arg: string) {
    arg != "" && arg[0] == '-'
  }

  predicate IsSpace(c: char) {
    var n := c as int;
    || 9 <= n <= 13 || 28 <= n <= 32 || n == 0x85 || n == 0xA0 || n == 0x1680 || 0x2000 <= n <= 0x200A
    || n == 0x2028 || n == 0x2029 || n == 0x202F || n == 0x205F || n == 0x3000
  }

  predicate LooksLikePath(arg: string) {
    arg != "" && (arg[0] == '/' || arg[0] == '~' || arg[0] == '.') && forall c | c in arg :: !IsSpace(c)
  }

  // The last component, ignoring empty and "." ones.
  function BaseName(path: string): string {
    LastComponent(path, "", "")
  }

  function LastComponent(path: string, part: string, last: string): string {
    if path == "" then Better(part, last)
    else if path[0] == '/' then LastComponent(path[1..], "", Better(part, last))
    else LastComponent(path[1..], part + [path[0]], last)
  }

  function Better(part: string, last: string): string {
    if part == "" || part == "." then last else part
  }

  function Name(arg: string): string {
    if arg == "" || arg[0] == '=' then "" else [arg[0]] + Name(arg[1..])
  }

  // What is kept of a flag: its value only when it is written with "=" and worth keeping.
  function KeptFlag(arg: string): string {
    if '=' in arg && Name(arg) !in KEPT_VALUE_FLAGS then Name(arg) else arg
  }

  function AfterFlag(arg: string): Skip {
    if '=' in arg then Nothing
    else if arg in VARIADIC_FLAGS then KeepMany
    else if arg in KEPT_VALUE_FLAGS then Keep
    else Drop
  }

  function Emitted(arg: string, skip: Skip): seq<string> {
    if IsFlag(arg) then [KeptFlag(arg)]
    else if skip.Keep? || (skip.KeepMany? && LooksLikePath(arg)) then [arg]
    else []
  }

  function NextSkip(arg: string, skip: Skip): Skip {
    if IsFlag(arg) then AfterFlag(arg) else if skip.KeepMany? then KeepMany else Nothing
  }

  function Stripped(args: seq<string>, skip: Skip): seq<string> {
    if args == [] then [] else Emitted(args[0], skip) + Stripped(args[1..], NextSkip(args[0], skip))
  }

  function Strip(argv: seq<string>): seq<string> {
    if argv == [] then [] else [BaseName(argv[0])] + Stripped(argv[1..], Nothing)
  }

  lemma StrippedStep(argv: seq<string>, i: nat, skip: Skip, kept: seq<string>)
    requires 0 < i < |argv|
    ensures kept + Stripped(argv[i..], skip)
            == kept + Emitted(argv[i], skip) + Stripped(argv[i + 1..], NextSkip(argv[i], skip))
  {}

  lemma StripStart(argv: seq<string>)
    ensures argv == [] ==> Strip(argv) == []
    ensures argv != [] ==> Strip(argv) == [BaseName(argv[0])] + Stripped(argv[1..], Nothing)
    ensures forall skip :: Stripped([], skip) == []
  {}

  method StripPrompt(argv: seq<string>) returns (kept: seq<string>)
    ensures kept == Strip(argv)
  {
    hide Strip, Stripped, BaseName, Name, LooksLikePath, IsFlag;
    kept := [];
    var skip := Nothing;
    StripStart(argv);
    for i := 0 to |argv|
      invariant i == 0 ==> kept == [] && skip == Nothing
      invariant i > 0 ==> kept + Stripped(argv[i..], skip) == Strip(argv)
    {
      var arg := argv[i];
      ghost var before, was := kept, skip;
      if i == 0 {
        kept := kept + [BaseName(arg)];
        continue;
      }
      StrippedStep(argv, i, skip, kept);
      if skip != Nothing && !IsFlag(arg) {
        if skip == Keep || (skip == KeepMany && LooksLikePath(arg)) {
          kept := kept + [arg];
        }
        if skip != KeepMany {
          skip := Nothing;
        }
      } else {
        skip := Nothing;
        if IsFlag(arg) {
          if '=' in arg {
            kept := kept + [if Name(arg) in KEPT_VALUE_FLAGS then arg else Name(arg)];
          } else {
            kept := kept + [arg];
            skip := if arg in VARIADIC_FLAGS then KeepMany else if arg in KEPT_VALUE_FLAGS then Keep else Drop;
          }
        }
      }
      assert kept == before + Emitted(arg, was) && skip == NextSkip(arg, was);
    }
    assert argv[|argv|..] == [];
  }

  // ---- What is kept, argument by argument ----

  // A value is kept when it directly follows a flag that takes one value worth keeping, or is a path that only values
  // separate from a flag that takes many.
  ghost predicate ValueKept(args: seq<string>, i: nat)
    requires i < |args|
  {
    || (i > 0 && args[i - 1] in KEPT_VALUE_FLAGS - VARIADIC_FLAGS)
    || (LooksLikePath(args[i]) && exists j :: Governs(args, j, i))
  }

  ghost predicate Governs(args: seq<string>, j: int, i: nat) {
    0 <= j < i <= |args| && args[j] in VARIADIC_FLAGS && forall m | j < m < i :: !IsFlag(args[m])
  }

  ghost function KeptAt(args: seq<string>, i: nat): seq<string>
    requires i < |args|
  {
    if IsFlag(args[i]) then [KeptFlag(args[i])] else if ValueKept(args, i) then [args[i]] else []
  }

  ghost function Selected(args: seq<string>, i: nat): seq<string>
    requires i <= |args|
    decreases |args| - i
  {
    if i == |args| then [] else KeptAt(args, i) + Selected(args, i + 1)
  }

  // The state of the loop says which flag governs the next value.
  ghost predicate Means(skip: Skip, args: seq<string>, i: nat)
    requires i <= |args|
  {
    && (skip.Keep? <==> i > 0 && args[i - 1] in KEPT_VALUE_FLAGS - VARIADIC_FLAGS)
    && (skip.KeepMany? <==> exists j :: Governs(args, j, i))
  }

  lemma KeptFlagsAreFlags(flag: string)
    ensures flag in KEPT_VALUE_FLAGS ==> IsFlag(flag) && '=' !in flag
    ensures VARIADIC_FLAGS <= KEPT_VALUE_FLAGS
  {}

  lemma MeansNext(skip: Skip, args: seq<string>, i: nat)
    requires i < |args| && Means(skip, args, i)
    ensures Means(NextSkip(args[i], skip), args, i + 1)
  {
    KeptFlagsAreFlags(args[i]);
    var next := i + 1;
    if exists j :: Governs(args, j, next) {
      var j :| Governs(args, j, next);
      if j < i { assert Governs(args, j, i); }
    }
    if args[i] in VARIADIC_FLAGS {
      assert Governs(args, i, i + 1);
    } else if !IsFlag(args[i]) && skip.KeepMany? {
      var j :| Governs(args, j, i);
      assert Governs(args, j, i + 1);
    }
  }

  lemma {:induction false} StrippedIsSelected(args: seq<string>, i: nat, skip: Skip)
    requires i <= |args| && Means(skip, args, i)
    ensures Stripped(args[i..], skip) == Selected(args, i)
    decreases |args| - i
  {
    if i < |args| {
      MeansNext(skip, args, i);
      StrippedIsSelected(args, i + 1, NextSkip(args[i], skip));
      assert args[i..][0] == args[i] && args[i..][1..] == args[i + 1..];
      assert Emitted(args[i], skip) == KeptAt(args, i);
    }
  }

  // Exactly the flags and the governed values survive, in order.
  lemma StripSelects(argv: seq<string>)
    requires argv != []
    ensures Strip(argv) == [BaseName(argv[0])] + Selected(argv[1..], 0)
  {
    var args := argv[1..];
    assert Means(Nothing, args, 0);
    StrippedIsSelected(args, 0, Nothing);
    assert args[0..] == args;
  }

  // ---- Stripping twice ----

  lemma {:induction false} NameIsPrefix(arg: string)
    ensures '=' !in Name(arg) && Name(arg) <= arg
    ensures IsFlag(arg) ==> IsFlag(Name(arg))
  {
    if arg != "" && arg[0] != '=' { NameIsPrefix(arg[1..]); }
  }

  lemma {:induction false} StrippedTwice(args: seq<string>, first: Skip, second: Skip)
    requires second == first || (first == Nothing && second == Drop)
    ensures Stripped(Stripped(args, first), second) == Stripped(args, first)
  {
    if args != [] {
      var arg, out := args[0], Emitted(args[0], first);
      var rest := Stripped(args[1..], NextSkip(arg, first));
      NameIsPrefix(arg);
      if out == [] {
        assert Stripped(args, first) == rest;
        StrippedTwice(args[1..], NextSkip(arg, first), second);
      } else {
        var x := out[0];
        assert Stripped(args, first) == [x] + rest && ([x] + rest)[1..] == rest;
        StrippedTwice(args[1..], NextSkip(arg, first), NextSkip(x, second));
      }
    }
  }

  lemma {:induction false} LastComponentPlain(path: string, part: string, last: string)
    requires '/' !in path
    ensures LastComponent(path, part, last) == Better(part + path, last)
  {
    if path == "" {
      assert part + path == part;
    } else {
      assert path[0] in path;
      LastComponentPlain(path[1..], part + [path[0]], last);
      assert part + [path[0]] + path[1..] == part + path;
    }
  }

  lemma {:induction false} LastComponentHasNoSlash(path: string, part: string, last: string)
    requires '/' !in part && '/' !in last && last != "."
    ensures '/' !in LastComponent(path, part, last) && LastComponent(path, part, last) != "."
  {
    if path != "" {
      if path[0] == '/' {
        LastComponentHasNoSlash(path[1..], "", Better(part, last));
      } else {
        LastComponentHasNoSlash(path[1..], part + [path[0]], last);
      }
    }
  }

  lemma StripIsIdempotent(argv: seq<string>)
    ensures Strip(Strip(argv)) == Strip(argv)
  {
    if argv != [] {
      var name := BaseName(argv[0]);
      LastComponentHasNoSlash(argv[0], "", "");
      LastComponentPlain(name, "", "");
      assert "" + name == name;
      StrippedTwice(argv[1..], Nothing, Nothing);
      assert Strip(argv)[1..] == Stripped(argv[1..], Nothing);
    }
  }

  // ---- What a kept value tells about the kept flags ----

  // In the result, too, every value is governed by a flag worth keeping.
  lemma KeptValueIsGoverned(argv: seq<string>, k: nat)
    requires 0 < k < |Strip(argv)| && !IsFlag(Strip(argv)[k])
    ensures ValueKept(Strip(argv)[1..], k - 1)
  {
    var out := Strip(argv)[1..];
    StripIsIdempotent(argv);
    StripSelects(Strip(argv));
    assert Selected(out, 0) == out by {
      assert Strip(argv) == [BaseName(Strip(argv)[0])] + Selected(out, 0);
    }
    SelectedWhole(out, 0);
  }

  lemma {:induction false} SelectedShort(args: seq<string>, i: nat)
    requires i <= |args|
    ensures |Selected(args, i)| <= |args| - i
    decreases |args| - i
  {
    if i < |args| { SelectedShort(args, i + 1); }
  }

  lemma {:induction false} SelectedWhole(args: seq<string>, i: nat)
    requires i <= |args| && |Selected(args, i)| == |args| - i
    ensures forall k | i <= k < |args| && !IsFlag(args[k]) :: ValueKept(args, k)
    decreases |args| - i
  {
    hide ValueKept, IsFlag, KeptFlag;
    if i < |args| {
      SelectedShort(args, i + 1);
      assert |KeptAt(args, i)| == 1;
      SelectedWhole(args, i + 1);
    }
  }

  // ---- Values behind "=" ----

  lemma {:induction false} NameOfPair(name: string, value: string)
    requires '=' !in name
    ensures Name(name + "=" + value) == name && Name(name) == name
  {
    if name != "" {
      assert name[0] in name && (name + "=" + value)[1..] == name[1..] + "=" + value;
      NameOfPair(name[1..], value);
    }
  }

  // The value goes unless its flag is worth keeping.
  lemma PairIsKeptIff(name: string, value: string)
    requires '=' !in name
    ensures KeptFlag(name + "=" + value) == if name in KEPT_VALUE_FLAGS then name + "=" + value else name
    ensures KeptFlag(name) == name
  {
    NameOfPair(name, value);
    assert (name + "=" + value)[|name|] == '=';
  }

  lemma {:induction false} SplitAtEquals(arg: string) returns (value: string)
    requires '=' in arg
    ensures arg == Name(arg) + "=" + value && '=' !in Name(arg)
  {
    if arg[0] == '=' {
      value := arg[1..];
      assert arg == "" + "=" + value;
    } else {
      value := SplitAtEquals(arg[1..]);
      assert arg == [arg[0]] + arg[1..];
    }
  }

  lemma {:induction false} FlagsOfSelected(args: seq<string>, i: nat, x: string)
    requires i <= |args| && x in Selected(args, i) && IsFlag(x)
    ensures exists k | i <= k < |args| :: IsFlag(args[k]) && x == KeptFlag(args[k])
    decreases |args| - i
  {
    if i < |args| && x !in KeptAt(args, i) {
      FlagsOfSelected(args, i + 1, x);
    }
  }

  lemma KeptWithEquals(arg: string)
    requires '=' in KeptFlag(arg)
    ensures KeptFlag(arg) == arg && Name(arg) in KEPT_VALUE_FLAGS
  {
    NameIsPrefix(arg);
  }

  // Whatever is left with an "=" has a flag worth keeping before it.
  lemma NoOtherValueSurvives(argv: seq<string>, k: nat) returns (name: string, value: string)
    requires 0 < k < |Strip(argv)| && IsFlag(Strip(argv)[k]) && '=' in Strip(argv)[k]
    ensures Strip(argv)[k] == name + "=" + value && '=' !in name && name in KEPT_VALUE_FLAGS
  {
    var x := Strip(argv)[k];
    StripSelects(argv);
    assert x == Selected(argv[1..], 0)[k - 1];
    FlagsOfSelected(argv[1..], 0, x);
    var i :| 0 <= i < |argv[1..]| && x == KeptFlag(argv[1..][i]);
    KeptWithEquals(argv[1..][i]);
    name := Name(x);
    value := SplitAtEquals(x);
  }

  // ---- The executable's name ----

  lemma {:induction false} SlashesKeepName(slashes: string, part: string, last: string)
    requires forall c | c in slashes :: c == '/'
    ensures LastComponent(slashes, part, last) == Better(part, last)
  {
    if slashes != "" {
      assert slashes[0] in slashes && forall c | c in slashes[1..] :: c in slashes;
      SlashesKeepName(slashes[1..], "", Better(part, last));
    }
  }

  lemma {:induction false} PlainPart(name: string, rest: string, part: string, last: string)
    requires '/' !in name
    ensures LastComponent(name + rest, part, last) == LastComponent(rest, part + name, last)
  {
    if name == "" {
      assert name + rest == rest && part + name == part;
    } else {
      assert name[0] in name && (name + rest)[1..] == name[1..] + rest;
      PlainPart(name[1..], rest, part + [name[0]], last);
      assert part + [name[0]] + name[1..] == part + name;
    }
  }

  lemma {:induction false} DirectoryIsSkipped(dir: string, rest: string, part: string, last: string)
    returns (before: string)
    requires dir != "" && dir[|dir| - 1] == '/'
    ensures LastComponent(dir + rest, part, last) == LastComponent(rest, "", before)
  {
    assert (dir + rest)[1..] == dir[1..] + rest;
    if |dir| == 1 {
      assert dir[1..] + rest == rest;
      before := Better(part, last);
    } else if dir[0] == '/' {
      before := DirectoryIsSkipped(dir[1..], rest, "", Better(part, last));
    } else {
      before := DirectoryIsSkipped(dir[1..], rest, part + [dir[0]], last);
    }
  }

  // The first element is the last component of the executable's path, whatever directory it is in.
  lemma FirstIsLastComponent(argv: seq<string>, dir: string, name: string, slashes: string)
    requires argv != [] && argv[0] == dir + name + slashes && (dir == "" || dir[|dir| - 1] == '/')
    requires name != "" && name != "." && '/' !in name && forall c | c in slashes :: c == '/'
    ensures Strip(argv) != [] && Strip(argv)[0] == name
  {
    var before := "";
    if dir != "" {
      before := DirectoryIsSkipped(dir, name + slashes, "", "");
      assert argv[0] == dir + (name + slashes);
    } else {
      assert argv[0] == name + slashes;
    }
    PlainPart(name, slashes, "", before);
    assert "" + name == name;
    SlashesKeepName(slashes, name, before);
  }
}
