/** The command line: `-p <path>` the directory to work on (the current
    directory by default), `-i <a,b,...>` the names of the directories to
    delete wherever they are found below it, `-e <a,b,...>` the names of
    directories not to look inside, and `-na` (no animation). A later
    occurrence of a flag overrides an earlier one; anything else, or a
    value flag with nothing after it, makes `TryParse` print the usage text
    and fail.

    The parse is specified in two stages: `Tokenize` reads the arguments
    into a list of options (or rejects them), and `ApplyAll` applies the
    options in order to the defaults. */
module Args {
  import opened Wrappers
  import opened Strings

  /** The settings `TryParse` fills in; an absent list is `None` (the C#
      `null`). */
  datatype RmrfArgs = RmrfArgs(
    NoAnimation: bool,
    Path: string,
    Include: Option<seq<string>>,
    Exclude: Option<seq<string>>)

  /** One recognised option. */
  datatype Opt = SetPath(value: string) | SetInclude(value: string) | SetExclude(value: string) | NoAnim

  /** A fresh `RmrfArgs` with the path set to the current directory. */
  function Defaults(cwd: string): RmrfArgs {
    RmrfArgs(false, cwd, None, None)
  }

  /** Puts `o` in front of the options read from the rest, keeping a rejection. */
  function Prepend(o: Opt, rest: Option<seq<Opt>>): Option<seq<Opt>> {
    match rest
    case None => None
    case Some(os) => Some([o] + os)
  }

  /** The options `args` spell, read from the front; `None` when an argument
      is not a flag or a value flag is the last argument. */
  function Tokenize(args: seq<string>): Option<seq<Opt>>
    decreases |args|
  {
    if args == [] then Some([])
    else if args[0] == "-p" && |args| >= 2 then Prepend(SetPath(args[1]), Tokenize(args[2..]))
    else if args[0] == "-i" && |args| >= 2 then Prepend(SetInclude(args[1]), Tokenize(args[2..]))
    else if args[0] == "-e" && |args| >= 2 then Prepend(SetExclude(args[1]), Tokenize(args[2..]))
    else if args[0] == "-na" then Prepend(NoAnim, Tokenize(args[1..]))
    else None
  }

  /** The effect of one option; lists are split on commas. */
  function Apply(res: RmrfArgs, o: Opt): RmrfArgs {
    match o
    case SetPath(v) => res.(Path := v)
    case SetInclude(v) => res.(Include := Some(Split(v)))
    case SetExclude(v) => res.(Exclude := Some(Split(v)))
    case NoAnim => res.(NoAnimation := true)
  }

  /** The options applied in order. */
  function ApplyAll(res: RmrfArgs, os: seq<Opt>): RmrfArgs {
    if os == [] then res else Apply(ApplyAll(res, os[..|os| - 1]), os[|os| - 1])
  }

  /** What `TryParse` yields for `args` when the current directory is `cwd`. */
  function Parse(cwd: string, args: seq<string>): Option<RmrfArgs> {
    match Tokenize(args)
    case None => None
    case Some(os) => Some(ApplyAll(Defaults(cwd), os))
  }

  /** `TryParse`: walks the arguments with an index, filling in the
      settings; `ok` is false when the usage text would be printed. */
  method TryParse(args: seq<string>, cwd: string) returns (ok: bool, res: RmrfArgs)
    ensures ok <==> Parse(cwd, args).Some?
    ensures ok ==> res == Parse(cwd, args).value
  {
    var ind := 0;
    res := Defaults(cwd);
    ghost var done: seq<Opt> := [];
    assert args[ind..] == args;
    assert Tokenize(args).Some? ==> [] + Tokenize(args).value == Tokenize(args).value;
    while ind < |args|
      invariant 0 <= ind <= |args|
      invariant res == ApplyAll(Defaults(cwd), done)
      invariant Tokenize(args) == Attach(done, Tokenize(args[ind..]))
      decreases |args| - ind
    {
      ghost var rest := args[ind..];
      ghost var o: Opt;
      if args[ind] == "-p" && ind < |args| - 1 {
        ind := ind + 1;
        res := res.(Path := args[ind]);
        ind := ind + 1;
        o := SetPath(args[ind - 1]);
        assert rest[2..] == args[ind..];
      } else if args[ind] == "-i" && ind < |args| - 1 {
        ind := ind + 1;
        res := res.(Include := Some(Split(args[ind])));
        ind := ind + 1;
        o := SetInclude(args[ind - 1]);
        assert rest[2..] == args[ind..];
      } else if args[ind] == "-e" && ind < |args| - 1 {
        ind := ind + 1;
        res := res.(Exclude := Some(Split(args[ind])));
        ind := ind + 1;
        o := SetExclude(args[ind - 1]);
        assert rest[2..] == args[ind..];
      } else if args[ind] == "-na" {
        ind := ind + 1;
        res := res.(NoAnimation := true);
        o := NoAnim;
        assert rest[1..] == args[ind..];
      } else {
        assert Tokenize(rest) == None;
        return false, res;
      }
      AttachPrepend(done, o, Tokenize(args[ind..]));
      assert (done + [o])[..|done|] == done;
      done := done + [o];
    }
    assert args[ind..] == [];
    assert done + [] == done;
    ok := true;
  }

  /** The options read so far in front of what the rest yields. */
  function Attach(done: seq<Opt>, rest: Option<seq<Opt>>): Option<seq<Opt>> {
    match rest
    case None => None
    case Some(os) => Some(done + os)
  }

  lemma AttachPrepend(done: seq<Opt>, o: Opt, rest: Option<seq<Opt>>)
    ensures Attach(done, Prepend(o, rest)) == Attach(done + [o], rest)
  {
    if rest.Some? {
      assert done + ([o] + rest.value) == done + [o] + rest.value;
    }
  }

  lemma PrependAttach(o: Opt, done: seq<Opt>, rest: Option<seq<Opt>>)
    ensures Prepend(o, Attach(done, rest)) == Attach([o] + done, rest)
  {
    if rest.Some? {
      assert [o] + (done + rest.value) == [o] + done + rest.value;
    }
  }

  /** Reading stops only at the end of the arguments: once `a` reads
      completely, `a + b` reads as `a`'s options followed by `b`'s. */
  lemma {:induction false} TokenizeAppend(a: seq<string>, b: seq<string>)
    requires Tokenize(a).Some?
    ensures Tokenize(a + b) == Attach(Tokenize(a).value, Tokenize(b))
    decreases |a|
  {
    if a == [] {
      assert a + b == b;
      if Tokenize(b).Some? {
        assert [] + Tokenize(b).value == Tokenize(b).value;
      }
    } else {
      assert (a + b)[0] == a[0];
      var k: nat;
      var o: Opt;
      if a[0] in ["-p", "-i", "-e"] && |a| >= 2 {
        k := 2;
        o := if a[0] == "-p" then SetPath(a[1]) else if a[0] == "-i" then SetInclude(a[1]) else SetExclude(a[1]);
        assert (a + b)[1] == a[1];
      } else {
        k := 1;
        o := NoAnim;
      }
      assert Tokenize(a) == Prepend(o, Tokenize(a[k..]));
      assert (a + b)[k..] == a[k..] + b;
      assert Tokenize(a + b) == Prepend(o, Tokenize(a[k..] + b));
      TokenizeAppend(a[k..], b);
      PrependAttach(o, Tokenize(a[k..]).value, Tokenize(b));
    }
  }

  /** A flag given again overrides the earlier value: after a command line
      that reads, one more `-p v`, `-i v` or `-e v` sets that field (the lists
      split on commas) and changes nothing else. */
  lemma LaterFlagWins(cwd: string, a: seq<string>, flag: string, v: string)
    requires Parse(cwd, a).Some?
    requires flag in ["-p", "-i", "-e"]
    ensures Parse(cwd, a + [flag, v]).Some?
    ensures flag == "-p" ==> Parse(cwd, a + [flag, v]).value == Parse(cwd, a).value.(Path := v)
    ensures flag == "-i" ==> Parse(cwd, a + [flag, v]).value == Parse(cwd, a).value.(Include := Some(Split(v)))
    ensures flag == "-e" ==> Parse(cwd, a + [flag, v]).value == Parse(cwd, a).value.(Exclude := Some(Split(v)))
  {
    var os := Tokenize(a).value;
    TokenizeAppend(a, [flag, v]);
    assert [flag, v][0] == flag && [flag, v][1] == v && [flag, v][2..] == [];
    var o := if flag == "-p" then SetPath(v) else if flag == "-i" then SetInclude(v) else SetExclude(v);
    assert Tokenize([flag, v][2..]) == Some([]) && [o] + [] == [o];
    assert Tokenize([flag, v]) == Some([o]);
    assert (os + [o])[..|os|] == os;
  }

  /** `-na` sets the no-animation switch and nothing else. */
  lemma NoAnimationFlag(cwd: string, a: seq<string>)
    requires Parse(cwd, a).Some?
    ensures Parse(cwd, a + ["-na"]) == Some(Parse(cwd, a).value.(NoAnimation := true))
  {
    var os := Tokenize(a).value;
    TokenizeAppend(a, ["-na"]);
    assert ["-na"][1..] == [];
    assert (os + [NoAnim])[..|os|] == os;
  }

  /** A value flag in last position is rejected. */
  lemma DanglingFlagRejected(cwd: string, a: seq<string>, flag: string)
    requires Parse(cwd, a).Some?
    requires flag in ["-p", "-i", "-e"]
    ensures Parse(cwd, a + [flag]) == None
  {
    TokenizeAppend(a, [flag]);
  }

  /** An argument that is not a flag where a flag is expected is rejected,
      whatever follows it. */
  lemma UnknownArgumentRejected(cwd: string, a: seq<string>, x: string, b: seq<string>)
    requires Parse(cwd, a).Some?
    requires x !in ["-p", "-i", "-e", "-na"]
    ensures Parse(cwd, a + [x] + b) == None
  {
    assert a + [x] + b == a + ([x] + b);
    TokenizeAppend(a, [x] + b);
    assert ([x] + b)[0] == x;
  }

  /** No arguments: the current directory, no lists, animation on. */
  lemma ParseEmpty(cwd: string)
    ensures Parse(cwd, []) == Some(RmrfArgs(false, cwd, None, None))
  {
  }
}
