/**
 * The command-line front end's parsers: the FD argument format and its
 * conversion to a 0-based FD, the option scanner over the argument array,
 * and the conversion of the CSV cells into the integer table (numbers kept
 * as they are, anything else dictionary-encoded).
 */
module CommandLine {
  import opened Wrappers
  import opened Strings
  import opened SortedSets
  import opened FunctionalDependencies

  /** A positive decimal numeral, [1-9][0-9]*. */
  predicate IsPositiveNumeral(s: string) {
    |s| >= 1 && '1' <= s[0] <= '9' && AllDigits(s)
  }

  /**
   * hasFdFormat, the pattern [1-9][0-9]*(,[1-9][0-9]*)*->[1-9][0-9]*: the
   * first '-' opens the arrow, before it stand comma-separated positive
   * numerals, after it one positive numeral.
   */
  predicate HasFdFormat(s: string) {
    '-' in s
    && var k := IndexOf(s, '-');
    k + 1 < |s| && s[k + 1] == '>'
    && AllPositiveNumerals(SplitAll(s[..k], ','))
    && IsPositiveNumeral(s[k + 2..])
  }

  predicate AllPositiveNumerals(parts: seq<string>) {
    forall p :: p in parts ==> IsPositiveNumeral(p)
  }

  /** A positive numeral that fits an int parses to a value of at least 1. */
  lemma PositiveNumeralValue(s: string)
    requires IsPositiveNumeral(s) && ParseInt(s).Some?
    ensures ParseInt(s).value >= 1
  {
    DigitsValueLeading(s);
  }

  /** A digit string whose first digit is not 0 has a value of at least 1. */
  lemma {:induction false} DigitsValueLeading(s: string)
    requires |s| >= 1 && AllDigits(s) && s[0] != '0'
    ensures DigitsValue(s) >= 1
  {
    if |s| > 1 {
      DigitsValueLeading(s[..|s| - 1]);
    }
  }

  /** Splitting into pieces none of which is empty drops nothing: split is the plain cut at every separator. */
  lemma SplitNonEmptyPieces(s: string, sep: char)
    requires forall p :: p in SplitAll(s, sep) ==> p != ""
    ensures Split(s, sep) == SplitAll(s, sep)
  {
    var parts := SplitAll(s, sep);
    assert parts[|parts| - 1] in parts;
  }

  /** The two sides of an FD argument, each side as Integer.parseInt reads it, minus one. */
  function FdOfParts(left: string, right: string): (r: Option<FD>)
    requires (forall p :: p in SplitAll(left, ',') ==> IsPositiveNumeral(p)) && IsPositiveNumeral(right)
    ensures r.Some? ==> IsSimple(r.value) && r.value.left != {}
  {
    var texts := Split(left, ',');
    assert forall p :: p in SplitAll(left, ',') ==> p != "" by {
      forall p | p in SplitAll(left, ',') ensures p != "" {
        assert IsPositiveNumeral(p);
      }
    }
    SplitNonEmptyPieces(left, ',');
    var leftSide := ParseIndexList(texts);
    var rightSide := ParseInt(right);
    if leftSide.None? || rightSide.None? then None
    else
      PositiveNumeralValue(right);
      assert texts[0] in texts && leftSide.value[0] in leftSide.value;
      Some(FD(Elements(leftSide.value), {rightSide.value - 1}))
  }

  /**
   * The FD string conversion of createComputationObject: "l1,...,lk->r"
   * becomes {l1 - 1, ..., lk - 1} -> {r - 1}. None where Integer.parseInt
   * overflows.
   */
  function ParseFd(s: string): (r: Option<FD>)
    requires HasFdFormat(s)
    ensures r.Some? ==> IsSimple(r.value) && r.value.left != {}
  {
    var k := IndexOf(s, '-');
    FdOfParts(s[..k], s[k + 2..])
  }

  /** Joining digit strings with commas puts no '-' into the text. */
  lemma {:induction false} JoinDigitsNoDash(texts: seq<string>)
    requires forall k :: 0 <= k < |texts| ==> AllDigits(texts[k])
    ensures '-' !in Join(texts, ',')
  {
    if |texts| >= 1 {
      assert forall i :: 0 <= i < |texts[0]| ==> texts[0][i] != '-';
    }
    if |texts| > 1 {
      JoinDigitsNoDash(texts[1..]);
    }
  }

  /** The first c in a + b, when a has none, is the first c in b, shifted by |a|. */
  lemma {:induction false} IndexOfPast(a: string, b: string, c: char)
    requires c !in a && c in b
    ensures c in a + b && IndexOf(a + b, c) == |a| + IndexOf(b, c)
  {
    if |a| > 0 {
      var s := a + b;
      assert a[0] in a && s[0] == a[0];
      assert s[1..] == a[1..] + b;
      assert IndexOf(s, c) == 1 + IndexOf(s[1..], c);
      IndexOfPast(a[1..], b, c);
    } else {
      assert a + b == b;
    }
  }

  lemma SingletonSorted(r: nat)
    ensures SortedElements({r}) == [r]
  {
    var xs := SortedElements({r});
    assert r in xs;
  }

  /**
   * An argument "left->right" whose left part has no '-' and splits into
   * positive numerals, and whose right part is one, is in hasFdFormat and
   * converts side by side.
   */
  lemma ParseFdOfParts(left: string, right: string)
    requires '-' !in left && IsPositiveNumeral(right)
    requires forall p :: p in SplitAll(left, ',') ==> IsPositiveNumeral(p)
    ensures HasFdFormat(left + "->" + right)
    ensures ParseFd(left + "->" + right) == FdOfParts(left, right)
  {
    ArrowAt(left, right);
  }

  /** In left + "->" + right, with no '-' in left, the first '-' opens the arrow right after left. */
  lemma ArrowAt(left: string, right: string)
    requires '-' !in left
    ensures var s := left + "->" + right;
      '-' in s && IndexOf(s, '-') == |left| && s[|left| + 1] == '>'
      && s[..|left|] == left && s[|left| + 2..] == right
  {
    var s := left + "->" + right;
    assert s == left + ("->" + right);
    IndexOfPast(left, "->" + right, '-');
  }

  /** Positive numerals joined by commas: no '-' in the text, and splitting at the commas gives numerals. */
  lemma JoinedNumerals(texts: seq<string>)
    requires |texts| >= 1 && forall j :: 0 <= j < |texts| ==> IsPositiveNumeral(texts[j])
    ensures '-' !in Join(texts, ',')
    ensures forall p :: p in SplitAll(Join(texts, ','), ',') ==> IsPositiveNumeral(p)
  {
    JoinDigitsNoDash(texts);
    forall j | 0 <= j < |texts| ensures ',' !in texts[j] {
      assert forall i :: 0 <= i < |texts[j]| ==> texts[j][i] != ',';
    }
    SplitAllJoin(texts, ',');
  }

  /** The text of a non-empty index list (1-based, comma-separated) has no '-' and splits into numerals. */
  lemma IndexListTexts(xs: seq<nat>)
    requires |xs| >= 1
    ensures '-' !in IndexListToString(xs)
    ensures forall p :: p in SplitAll(IndexListToString(xs), ',') ==> IsPositiveNumeral(p)
  {
    var texts := OneBasedTexts(xs);
    forall j | 0 <= j < |texts| ensures IsPositiveNumeral(texts[j]) {
      var t := NatToString(xs[j] + 1);
      assert IsDigit(t[0]) && t[0] != '0';
    }
    JoinedNumerals(texts);
  }

  /**
   * The text toString gives a simple FD is in hasFdFormat, and the
   * argument conversion turns it back into the FD.
   */
  lemma ParseFdOfText(fd: FD)
    requires IsSimple(fd) && fd.left != {}
    requires forall x :: x in fd.left ==> x < MaxInt
    requires forall x :: x in fd.right ==> x < MaxInt
    ensures HasFdFormat(ToString(fd)) && ParseFd(ToString(fd)) == Some(fd)
  {
    var left := LeftSideToString(fd);
    var r: nat := SimpleRightSide(fd);
    SingletonSorted(r);
    var right := NatToString(r + 1);
    assert IndexListToString(SortedElements(fd.right)) == right;
    assert ToString(fd) == left + "->" + right;
    assert |LeftSideArray(fd)| >= 1;
    IndexListTexts(LeftSideArray(fd));
    LeftSideStringRoundTrip(fd);
    ParseIntNatToString(r + 1);
    ParseFdOfParts(left, right);
  }

  /** Why verifyArgs rejects the command line: the IllegalArgumentException it throws, or the empty array it indexes. */
  datatype ArgError =
    | NoArguments
    | TableMissing
    | ParameterMissing(option: string)
    | DelimiterNotSingle
    | IterationsNotInteger
    | UnexpectedParameter(arg: string)
    | FdIncorrectlyFormatted(fd: string)

  /**
   * The option slots after the table slot: 1 -e, 2 -d, 3 --header,
   * 4 --name, 5 --show-process, 6 -i, 7 -s, 8 -r, 9 --closure.
   */
  const NumOptions: nat := 9

  predicate StartsWithDash(s: string) {
    |s| >= 1 && s[0] == '-'
  }

  /** The value of an option is missing: no argument left, or the next one is an option or an FD. */
  predicate ValueMissing(args: seq<string>, i: nat) {
    i >= |args| || StartsWithDash(args[i]) || HasFdFormat(args[i])
  }

  predicate IsOption(arg: string) {
    arg in {"-e", "-d", "--header", "--name", "--show-process", "-i", "-s", "-r", "--closure"}
  }

  /** One turn of verifyArgs' option loop at argument i: the next argument and slots, or the error thrown. */
  datatype Step = Next(next: nat, slots: seq<Option<string>>) | Fail(error: ArgError)

  function OptionStep(args: seq<string>, i: nat, slots: seq<Option<string>>): (st: Step)
    requires |slots| == NumOptions + 1 && i < |args|
    ensures st.Next? ==> i < st.next <= |args| && |st.slots| == NumOptions + 1
    ensures st.Fail? ==> !st.error.NoArguments? && !st.error.TableMissing? && !st.error.FdIncorrectlyFormatted?
  {
    var arg := args[i];
    if arg == "-e" then Next(i + 1, slots[1 := Some("X")])
    else if arg == "-d" then
      if ValueMissing(args, i + 1) then Fail(ParameterMissing("-d"))
      else if Utf16Length(args[i + 1]) != 1 then Fail(DelimiterNotSingle)
      else Next(i + 2, slots[2 := Some(args[i + 1])])
    else if arg == "--header" then Next(i + 1, slots[3 := Some("X")])
    else if arg == "--name" then
      if ValueMissing(args, i + 1) then Fail(ParameterMissing("--name"))
      else Next(i + 2, slots[4 := Some(args[i + 1])])
    else if arg == "--show-process" then Next(i + 1, slots[5 := Some("X")])
    else if arg == "-i" then Next(i + 1, slots[6 := Some("X")])
    else if arg == "-s" then Next(i + 1, slots[7 := Some("X")])
    else if arg == "-r" then
      if ValueMissing(args, i + 1) then Fail(ParameterMissing("-r"))
      else if ParseInt(args[i + 1]).None? then Fail(IterationsNotInteger)
      else Next(i + 2, slots[8 := Some(args[i + 1])])
    else if arg == "--closure" then Next(i + 1, slots[9 := Some("X")])
    else Fail(UnexpectedParameter(arg))
  }

  /**
   * verifyArgs' option loop from argument i on, with the slots filled so
   * far: the index of the first FD argument (or the end) and the slots, or
   * the error thrown.
   */
  function ScanOptions(args: seq<string>, i: nat, slots: seq<Option<string>>): (r: Result<(nat, seq<Option<string>>), ArgError>)
    requires |slots| == NumOptions + 1
    ensures r.Ok? ==> |r.value.1| == NumOptions + 1 && i <= r.value.0
    ensures r.Ok? && i <= |args| ==> r.value.0 <= |args|
    ensures r.Err? ==> !r.error.NoArguments? && !r.error.TableMissing? && !r.error.FdIncorrectlyFormatted?
    decreases |args| - i
  {
    if i >= |args| || HasFdFormat(args[i]) then Ok((i, slots))
    else
      match OptionStep(args, i, slots)
      case Fail(e) => Err(e)
      case Next(j, next) => ScanOptions(args, j, next)
  }

  /** The first argument from i on that is not in hasFdFormat, or |args| when there is none. */
  function FirstMalformed(args: seq<string>, i: nat): (k: nat)
    ensures k <= |args| && (i <= k || k == |args|)
    ensures forall m :: i <= m < k ==> HasFdFormat(args[m])
    ensures k < |args| ==> !HasFdFormat(args[k])
    decreases |args| - i
  {
    if i >= |args| then |args|
    else if !HasFdFormat(args[i]) then i
    else FirstMalformed(args, i + 1)
  }

  function Wrapped(xs: seq<string>): (r: seq<Option<string>>)
    ensures |r| == |xs| && forall k :: 0 <= k < |xs| ==> r[k] == Some(xs[k])
  {
    seq(|xs|, k requires 0 <= k < |xs| => Some(xs[k]))
  }

  /** The slots before the loop: the table argument, then nothing. */
  function InitialSlots(table: string): (slots: seq<Option<string>>)
    ensures |slots| == NumOptions + 1
  {
    [Some(table)] + seq(NumOptions, _ => None)
  }

  /**
   * What verifyArgs returns: the table argument, the nine option slots,
   * then the FD arguments; or the error it throws.
   */
  function VerifiedArgs(args: seq<string>): Result<seq<Option<string>>, ArgError>
  {
    if |args| == 0 then Err(NoArguments)
    else if StartsWithDash(args[0]) || HasFdFormat(args[0]) then Err(TableMissing)
    else
      match ScanOptions(args, 1, InitialSlots(args[0]))
      case Err(e) => Err(e)
      case Ok((i, slots)) =>
        var k := FirstMalformed(args, i);
        if k < |args| then Err(FdIncorrectlyFormatted(args[k]))
        else Ok(slots + Wrapped(args[i..]))
  }

  /** verifyArgs: scan the options into the slots, then check that every remaining argument is an FD. */
  method VerifyArgs(args: seq<string>) returns (r: Result<seq<Option<string>>, ArgError>)
    ensures r == VerifiedArgs(args)
  {
    var verifiedOptions := new Option<string>[NumOptions + 1](_ => None);
    if |args| == 0 {
      return Err(NoArguments);
    }
    if StartsWithDash(args[0]) || HasFdFormat(args[0]) {
      return Err(TableMissing);
    }
    verifiedOptions[0] := Some(args[0]);
    assert verifiedOptions[..] == InitialSlots(args[0]);
    var i := 1;
    while i < |args| && !HasFdFormat(args[i])
      invariant 1 <= i <= |args|
      invariant ScanOptions(args, i, verifiedOptions[..]) == ScanOptions(args, 1, InitialSlots(args[0]))
      decreases |args| - i
    {
      var next, error := OptionTurn(args, i, verifiedOptions);
      if error.Some? {
        return Err(error.value);
      }
      i := next;
    }
    for k := i to |args|
      invariant FirstMalformed(args, i) == FirstMalformed(args, k)
    {
      if !HasFdFormat(args[k]) {
        return Err(FdIncorrectlyFormatted(args[k]));
      }
    }
    r := Ok(verifiedOptions[..] + Wrapped(args[i..]));
  }

  /** One turn of verifyArgs' switch on args[i]: the index of the next argument, or the error thrown. */
  method OptionTurn(args: seq<string>, i: nat, verifiedOptions: array<Option<string>>)
    returns (next: nat, error: Option<ArgError>)
    requires verifiedOptions.Length == NumOptions + 1 && i < |args|
    modifies verifiedOptions
    ensures error.None? ==> OptionStep(args, i, old(verifiedOptions[..])) == Next(next, verifiedOptions[..])
    ensures error.Some? ==> OptionStep(args, i, old(verifiedOptions[..])) == Fail(error.value)
  {
    var arg := args[i];
    next := i + 1;
    error := None;
    if arg == "-e" {
      verifiedOptions[1] := Some("X");
    } else if arg == "-d" {
      if ValueMissing(args, next) {
        return next, Some(ParameterMissing("-d"));
      }
      if Utf16Length(args[next]) != 1 {
        return next, Some(DelimiterNotSingle);
      }
      verifiedOptions[2] := Some(args[next]);
      next := next + 1;
    } else if arg == "--header" {
      verifiedOptions[3] := Some("X");
    } else if arg == "--name" {
      if ValueMissing(args, next) {
        return next, Some(ParameterMissing("--name"));
      }
      verifiedOptions[4] := Some(args[next]);
      next := next + 1;
    } else if arg == "--show-process" {
      verifiedOptions[5] := Some("X");
    } else if arg == "-i" {
      verifiedOptions[6] := Some("X");
    } else if arg == "-s" {
      verifiedOptions[7] := Some("X");
    } else if arg == "-r" {
      if ValueMissing(args, next) {
        return next, Some(ParameterMissing("-r"));
      }
      if ParseInt(args[next]).None? {
        return next, Some(IterationsNotInteger);
      }
      verifiedOptions[8] := Some(args[next]);
      next := next + 1;
    } else if arg == "--closure" {
      verifiedOptions[9] := Some("X");
    } else {
      error := Some(UnexpectedParameter(arg));
    }
  }

  predicate IsFlag(o: Option<string>) {
    o.None? || o.value == "X"
  }

  predicate IsOptionValue(o: Option<string>) {
    o.None? || (!StartsWithDash(o.value) && !HasFdFormat(o.value))
  }

  /**
   * What the option slots may hold: a flag is unset or "X"; a value is
   * neither an option nor an FD; the delimiter is one character and the
   * iteration count an int.
   */
  predicate WellFormedSlots(slots: seq<Option<string>>) {
    |slots| == NumOptions + 1
    && IsFlag(slots[1]) && IsFlag(slots[3]) && IsFlag(slots[5])
    && IsFlag(slots[6]) && IsFlag(slots[7]) && IsFlag(slots[9])
    && IsOptionValue(slots[2]) && (slots[2].Some? ==> |slots[2].value| == 1)
    && IsOptionValue(slots[4])
    && IsOptionValue(slots[8]) && (slots[8].Some? ==> ParseInt(slots[8].value).Some?)
  }

  /** The first argument from i on that is in hasFdFormat, or |args| when there is none. */
  function FirstFd(args: seq<string>, i: nat): (k: nat)
    ensures k <= |args| && (i <= k || k == |args|)
    decreases |args| - i
  {
    if i >= |args| then |args|
    else if HasFdFormat(args[i]) then i
    else FirstFd(args, i + 1)
  }

  lemma {:induction false} FirstFdIsFirst(args: seq<string>, i: nat)
    ensures forall m :: i <= m < FirstFd(args, i) ==> !HasFdFormat(args[m])
    ensures FirstFd(args, i) < |args| ==> HasFdFormat(args[FirstFd(args, i)])
    decreases |args| - i
  {
    if i < |args| && !HasFdFormat(args[i]) {
      FirstFdIsFirst(args, i + 1);
    }
  }

  /**
   * One turn keeps the slots well formed and consumes no FD argument as an
   * option value; an unknown argument is the one rejected.
   */
  lemma OptionStepSound(args: seq<string>, i: nat, slots: seq<Option<string>>)
    requires WellFormedSlots(slots) && i < |args|
    ensures var st := OptionStep(args, i, slots);
      && (st.Next? ==> WellFormedSlots(st.slots) && st.slots[0] == slots[0]
                       && forall k :: i < k < st.next ==> !HasFdFormat(args[k]))
      && (st.Fail? && st.error.UnexpectedParameter? ==> st.error.arg == args[i] && !IsOption(args[i]))
  {
    var arg := args[i];
    if arg in {"-e", "--header", "--show-process", "-i", "-s", "--closure"} {
      var k := if arg == "-e" then 1 else if arg == "--header" then 3 else if arg == "--show-process" then 5
        else if arg == "-i" then 6 else if arg == "-s" then 7 else 9;
      assert OptionStep(args, i, slots) == Next(i + 1, slots[k := Some("X")]);
      SetFlag(slots, k);
    } else if arg in {"-d", "--name", "-r"} && OptionStep(args, i, slots).Next? {
      var k := if arg == "-d" then 2 else if arg == "--name" then 4 else 8;
      assert OptionStep(args, i, slots) == Next(i + 2, slots[k := Some(args[i + 1])]);
      SetValue(slots, k, args[i + 1]);
    }
  }

  lemma SetFlag(slots: seq<Option<string>>, k: nat)
    requires WellFormedSlots(slots) && k in {1, 3, 5, 6, 7, 9}
    ensures WellFormedSlots(slots[k := Some("X")])
  {
  }

  lemma SetValue(slots: seq<Option<string>>, k: nat, v: string)
    requires WellFormedSlots(slots) && k in {2, 4, 8}
    requires !StartsWithDash(v) && !HasFdFormat(v)
    requires k == 2 ==> |v| == 1
    requires k == 8 ==> ParseInt(v).Some?
    ensures WellFormedSlots(slots[k := Some(v)])
  {
  }

  /** Skipping arguments that are not FDs does not move the first FD. */
  lemma FirstFdSkip(args: seq<string>, i: nat, j: nat)
    requires i <= j <= |args|
    requires forall k :: i <= k < j ==> !HasFdFormat(args[k])
    ensures FirstFd(args, i) == FirstFd(args, j)
  {
    FirstFdIsFirst(args, i);
    FirstFdIsFirst(args, j);
  }

  /** The option loop keeps the slots well formed and stops exactly at the first FD argument. */
  lemma {:induction false} ScanOptionsSound(args: seq<string>, i: nat, slots: seq<Option<string>>)
    requires WellFormedSlots(slots) && i <= |args|
    ensures ScanOptions(args, i, slots).Ok? ==>
      var (j, out) := ScanOptions(args, i, slots).value;
      j == FirstFd(args, i) && WellFormedSlots(out) && out[0] == slots[0]
    ensures ScanOptions(args, i, slots).Err? && ScanOptions(args, i, slots).error.UnexpectedParameter? ==>
      var a := ScanOptions(args, i, slots).error.arg;
      !IsOption(a) && !HasFdFormat(a) && exists k :: i <= k < |args| && args[k] == a
    decreases |args| - i
  {
    if i < |args| && !HasFdFormat(args[i]) {
      OptionStepSound(args, i, slots);
      var st := OptionStep(args, i, slots);
      if st.Next? {
        ScanOptionsSound(args, st.next, st.slots);
        FirstFdSkip(args, i, st.next);
      }
    }
  }

  /**
   * An accepted command line: the table argument is neither an option nor
   * an FD, the slots are well formed, and the FD list is every argument from
   * the first FD-formatted one on, each of them FD-formatted.
   */
  lemma VerifiedArgsAccepted(args: seq<string>)
    requires VerifiedArgs(args).Ok?
    ensures var out := VerifiedArgs(args).value;
      && |args| >= 1 && !StartsWithDash(args[0]) && !HasFdFormat(args[0])
      && |out| >= NumOptions + 1 && out[0] == Some(args[0])
      && WellFormedSlots(out[..NumOptions + 1])
      && var first := FirstFd(args, 1);
         first <= |args| && out[NumOptions + 1..] == Wrapped(args[first..])
         && forall k :: first <= k < |args| ==> HasFdFormat(args[k])
  {
    ScanOptionsSound(args, 1, InitialSlots(args[0]));
    var (i, slots) := ScanOptions(args, 1, InitialSlots(args[0])).value;
    assert i == FirstFd(args, 1);
    var out := slots + Wrapped(args[i..]);
    assert VerifiedArgs(args) == Ok(out);
    assert FirstMalformed(args, i) == |args|;
    assert out[..NumOptions + 1] == slots;
  }

  /** What each rejection says about the command line. */
  lemma VerifiedArgsRejected(args: seq<string>)
    ensures VerifiedArgs(args) == Err(NoArguments) <==> |args| == 0
    ensures VerifiedArgs(args) == Err(TableMissing) <==>
      |args| >= 1 && (StartsWithDash(args[0]) || HasFdFormat(args[0]))
    ensures VerifiedArgs(args).Err? && VerifiedArgs(args).error.UnexpectedParameter? ==>
      var a := VerifiedArgs(args).error.arg;
      !IsOption(a) && !HasFdFormat(a) && exists k :: 1 <= k < |args| && args[k] == a
    ensures VerifiedArgs(args).Err? && VerifiedArgs(args).error.FdIncorrectlyFormatted? ==>
      var a := VerifiedArgs(args).error.fd;
      !HasFdFormat(a) && exists k :: FirstFd(args, 1) < k < |args| && args[k] == a
  {
    if |args| >= 1 && !StartsWithDash(args[0]) && !HasFdFormat(args[0]) {
      ScanOptionsSound(args, 1, InitialSlots(args[0]));
      FirstFdIsFirst(args, 1);
    }
  }

  /** A table argument followed by FDs only is accepted, with no option set. */
  lemma VerifiedArgsFdsOnly(table: string, fds: seq<string>)
    requires !StartsWithDash(table) && !HasFdFormat(table)
    requires forall k :: 0 <= k < |fds| ==> HasFdFormat(fds[k])
    ensures VerifiedArgs([table] + fds) == Ok(InitialSlots(table) + Wrapped(fds))
  {
    var args := [table] + fds;
    assert args[1..] == fds;
    forall k | 1 <= k < |args|
      ensures HasFdFormat(args[k])
    {
      assert args[k] == fds[k - 1];
    }
  }
}
