/** The command-line switches of the library: `-a` turns on the internal
    assertions and `-v` the verbose log. Both start off and can only be
    turned on. */
module Flag {

  /** The two switches as a value. */
  datatype Settings = Settings(assertOn: bool, verbose: bool)

  /** The effect of one argument: only an argument equal to "-a" or "-v"
      changes anything. */
  function ArgEffect(s: Settings, arg: string): Settings
  {
    if arg == "-a" then s.(assertOn := true)
    else if arg == "-v" then s.(verbose := true)
    else s
  }

  /** The settings after examining `args` in order. */
  function Scan(s: Settings, args: seq<string>): Settings
  {
    if args == [] then s
    else ArgEffect(Scan(s, args[..|args| - 1]), args[|args| - 1])
  }

  /** The arguments after the program name: a string is examined exactly
      when it is some `argv[i]` with `i >= 1`, and `argv[0]` is skipped. */
  function Arguments(argv: seq<string>): (args: seq<string>)
    ensures |argv| > 0 ==> |args| == |argv| - 1
    ensures forall k :: 0 <= k < |args| ==> k + 1 < |argv| && args[k] == argv[k + 1]
    ensures forall x :: x in args <==> exists i :: 1 <= i < |argv| && argv[i] == x
  {
    if |argv| == 0 then []
    else
      var args := argv[1..];
      assert forall x :: x in args <==> exists i :: 1 <= i < |argv| && argv[i] == x by {
        forall x ensures x in args <==> exists i :: 1 <= i < |argv| && argv[i] == x {
          if x in args {
            var k :| 0 <= k < |args| && args[k] == x;
            assert argv[k + 1] == x;
          }
        }
      }
      args
  }

  /** The settings after a program started with `argv` has parsed it. */
  function Parsed(argv: seq<string>): Settings
  {
    Scan(Settings(false, false), Arguments(argv))
  }

  /** A switch ends up on exactly when it was already on or some argument
      names it exactly. */
  lemma {:induction false} ScanMeaning(s: Settings, args: seq<string>)
    ensures Scan(s, args).assertOn <==> s.assertOn || "-a" in args
    ensures Scan(s, args).verbose <==> s.verbose || "-v" in args
  {
    if args != [] {
      var init := args[..|args| - 1];
      ScanMeaning(s, init);
      assert args == init + [args[|args| - 1]];
    }
  }

  /** The switches of a started program: `-a` (respectively `-v`) among the
      arguments after the program name, whatever the program name is. */
  lemma ParsedMeaning(argv: seq<string>)
    ensures Parsed(argv).assertOn <==> exists i :: 1 <= i < |argv| && argv[i] == "-a"
    ensures Parsed(argv).verbose <==> exists i :: 1 <= i < |argv| && argv[i] == "-v"
  {
    ScanMeaning(Settings(false, false), Arguments(argv));
  }

  /** The order of the arguments does not matter. */
  lemma ScanOrderFree(s: Settings, a: seq<string>, b: seq<string>)
    requires multiset(a) == multiset(b)
    ensures Scan(s, a) == Scan(s, b)
  {
    ScanMeaning(s, a);
    ScanMeaning(s, b);
    assert "-a" in a <==> "-a" in multiset(a);
    assert "-v" in a <==> "-v" in multiset(a);
    assert "-a" in b <==> "-a" in multiset(b);
    assert "-v" in b <==> "-v" in multiset(b);
  }

  /** Parsing the same arguments a second time changes nothing. */
  lemma ScanIdempotent(s: Settings, args: seq<string>)
    ensures Scan(Scan(s, args), args) == Scan(s, args)
  {
    ScanMeaning(s, args);
    ScanMeaning(Scan(s, args), args);
  }

  /** A switch once on stays on. */
  lemma ScanNeverClears(s: Settings, args: seq<string>)
    ensures s.assertOn ==> Scan(s, args).assertOn
    ensures s.verbose ==> Scan(s, args).verbose
  {
    ScanMeaning(s, args);
  }

  /** Arguments that are not exactly "-a" or "-v" (a combined "-av", say)
      leave the switches as they are. */
  lemma {:induction false} OtherArgumentsIgnored(s: Settings, args: seq<string>)
    requires forall k :: 0 <= k < |args| ==> args[k] != "-a" && args[k] != "-v"
    ensures Scan(s, args) == s
  {
    if args != [] {
      OtherArgumentsIgnored(s, args[..|args| - 1]);
    }
  }

  /** The globals `flag__assert` and `flag__verbose`. */
  class Flags {
    var assertOn: bool
    var verbose: bool

    function Current(): Settings
      reads this
    {
      Settings(assertOn, verbose)
    }

    /** Both switches start off. */
    constructor ()
      ensures !assertOn && !verbose
    {
      assertOn := false;
      verbose := false;
    }

    /** `flag_parse_args`: examine `argv[1..]` and turn on the switches named. */
    method ParseArgs(argv: seq<string>)
      modifies this
      ensures Current() == Scan(old(Current()), Arguments(argv))
      ensures assertOn <==> old(assertOn) || exists i :: 1 <= i < |argv| && argv[i] == "-a"
      ensures verbose <==> old(verbose) || exists i :: 1 <= i < |argv| && argv[i] == "-v"
    {
      ghost var start := Current();
      ghost var args := Arguments(argv);
      var i := 1;
      while i < |argv|
        invariant 1 <= i <= |args| + 1
        invariant Current() == Scan(start, args[..i - 1])
      {
        assert argv[i] == args[i - 1];
        assert args[..i][..i - 1] == args[..i - 1];
        if argv[i] == "-a" {
          assertOn := true;
        } else if argv[i] == "-v" {
          verbose := true;
        }
        i := i + 1;
      }
      assert args[..i - 1] == args;
      ScanMeaning(start, args);
    }
  }
}
