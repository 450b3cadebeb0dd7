/** Configuration reading (SimulationUtilities/Configuration_Processing.py):
    the flatten/reshape pair between atom rows and the flat configuration
    vector, and the line format of the configuration file, where each line
    is a two-letter command, a separator and a value. The file reader
    (`ase.io.read`), `float` and `numpy.fromstring` are parameters. */
module ConfigurationProcessing {
  import opened Wrappers

  /** Total number of coordinates in a list of rows. */
  function SumLengths(rows: seq<seq<real>>): nat
  {
    if |rows| == 0 then 0 else |rows[0]| + SumLengths(rows[1..])
  }

  /** Where row i starts in the flattened vector: after all coordinates of
      rows 0 .. i - 1. */
  function Offset(rows: seq<seq<real>>, i: nat): (o: nat)
    requires i < |rows|
    ensures o + |rows[i]| <= SumLengths(rows)
  {
    if i == 0 then 0 else |rows[0]| + Offset(rows[1..], i - 1)
  }

  /** `v` holds the rows one after another: as many coordinates as the rows
      have, coordinate j of row i at the row's offset plus j. */
  predicate Stacked(rows: seq<seq<real>>, v: seq<real>)
  {
    && |v| == SumLengths(rows)
    && forall i, j :: 0 <= i < |rows| && 0 <= j < |rows[i]| ==> v[Offset(rows, i) + j] == rows[i][j]
  }

  /** `convert_atoms_to_vector`: the rows stacked one after another. */
  function AtomsToVector(rows: seq<seq<real>>): (v: seq<real>)
    ensures Stacked(rows, v)
  {
    if |rows| == 0 then []
    else
      var rest := AtomsToVector(rows[1..]);
      StackRow(rows, rest);
      rows[0] + rest
  }

  /** Flattening starts with the first row. */
  lemma {:induction false} FlattenCons(rows: seq<seq<real>>)
    requires |rows| > 0
    ensures AtomsToVector(rows) == rows[0] + AtomsToVector(rows[1..])
  {
  }

  /** Putting the first row in front of the stacked remaining rows stacks
      all the rows. */
  lemma {:induction false} StackRow(rows: seq<seq<real>>, rest: seq<real>)
    requires |rows| > 0 && Stacked(rows[1..], rest)
    ensures Stacked(rows, rows[0] + rest)
  {
    var v := rows[0] + rest;
    forall i, j | 0 <= i < |rows| && 0 <= j < |rows[i]|
      ensures v[Offset(rows, i) + j] == rows[i][j]
    {
      if i > 0 {
        StackRowAt(rows, rest, i, j);
      }
    }
  }

  /** A coordinate of a later row: its offset is one first-row length past
      its offset among the remaining rows. */
  lemma {:induction false} StackRowAt(rows: seq<seq<real>>, rest: seq<real>, i: nat, j: nat)
    requires 0 < i < |rows| && 0 <= j < |rows[i]| && |rest| == SumLengths(rows[1..])
    requires rest[Offset(rows[1..], i - 1) + j] == rows[1..][i - 1][j]
    ensures (rows[0] + rest)[Offset(rows, i) + j] == rows[i][j]
  {
  }

  predicate AllRowsHaveLength(rows: seq<seq<real>>, d: nat)
  {
    forall i :: 0 <= i < |rows| ==> |rows[i]| == d
  }

  /** Division with remainder is unique. */
  lemma {:induction false} DivModUnique(x: int, d: int, q: int, m: int)
    requires d > 0 && x == d * q + m && 0 <= m < d
    ensures x % d == m
  {
    var k := q - x / d;
    assert d * k == x % d - m;
  }

  /** Removing d elements from a length of at least d keeps its remainder
      modulo d. */
  lemma {:induction false} ModStep(a: nat, d: nat)
    requires 0 < d <= a
    ensures a % d == (a - d) % d
  {
    DivModUnique(a - d, d, a / d - 1, a % d);
  }

  /** `convert_vector_to_atoms(vector, dimension)`, numpy's reshape into rows
      of `d` coordinates: it succeeds exactly when the length is a multiple
      of `d`, the rows then all have `d` coordinates and stacking them gives
      the vector back. A zero dimension divides by zero; any other length
      makes numpy raise. */
  function VectorToAtoms(v: seq<real>, d: nat): (r: Result<seq<seq<real>>>)
    ensures d == 0 <==> r == Failure(ZeroDivisionError)
    ensures d > 0 ==> (r.Success? <==> |v| % d == 0)
    ensures d > 0 && r.Failure? ==> r.error.ValueError?
    ensures r.Success? ==> AllRowsHaveLength(r.value, d) && AtomsToVector(r.value) == v
    decreases |v|
  {
    if d == 0 then Failure(ZeroDivisionError)
    else if |v| == 0 then Success([])
    else if |v| < d then Failure(ValueError("cannot reshape array"))
    else
      ModStep(|v|, d);
      match VectorToAtoms(v[d..], d)
      case Failure(e) => Failure(e)
      case Success(rest) =>
        ReshapeStep(v, d, rest);
        Success([v[..d]] + rest)
  }

  /** The first d coordinates in front of the reshaped remainder reshape
      the whole vector. */
  lemma {:induction false} ReshapeStep(v: seq<real>, d: nat, rest: seq<seq<real>>)
    requires 0 < d <= |v| && AllRowsHaveLength(rest, d) && AtomsToVector(rest) == v[d..]
    ensures AllRowsHaveLength([v[..d]] + rest, d) && AtomsToVector([v[..d]] + rest) == v
  {
    FlattenFront(v[..d], rest, v[d..]);
    TakeDropJoin(v, d);
    RowLengthsCons(v[..d], rest, d);
  }

  lemma {:induction false} TakeDropJoin<T>(v: seq<T>, d: nat)
    requires d <= |v|
    ensures v[..d] + v[d..] == v
  {
  }

  /** Flattening a row in front of rows that flatten to `tail`. */
  lemma {:induction false} FlattenFront(row: seq<real>, rest: seq<seq<real>>, tail: seq<real>)
    requires AtomsToVector(rest) == tail
    ensures AtomsToVector([row] + rest) == row + tail
  {
    var rows := [row] + rest;
    assert rows[0] == row && rows[1..] == rest;
    FlattenCons(rows);
  }

  /** A row of length d in front of rows of length d. */
  lemma {:induction false} RowLengthsCons(row: seq<real>, rest: seq<seq<real>>, d: nat)
    requires |row| == d && AllRowsHaveLength(rest, d)
    ensures AllRowsHaveLength([row] + rest, d)
  {
    var rows := [row] + rest;
    forall i | 0 <= i < |rows|
      ensures |rows[i]| == d
    {
      if i > 0 {
        assert rows[i] == rest[i - 1];
      }
    }
  }

  /** Reshaping a flattened list of d-coordinate rows gives the rows back. */
  lemma {:induction false} ReshapeInvertsFlatten(rows: seq<seq<real>>, d: nat)
    requires d > 0 && AllRowsHaveLength(rows, d)
    ensures VectorToAtoms(AtomsToVector(rows), d) == Success(rows)
  {
    if |rows| > 0 {
      ReshapeInvertsFlatten(rows[1..], d);
      var v := AtomsToVector(rows);
      var rest := AtomsToVector(rows[1..]);
      assert v == rows[0] + rest;
      assert v[..d] == rows[0];
      assert v[d..] == rest;
      assert [rows[0]] + rows[1..] == rows;
    }
  }

  /** The case the potential server relies on: 3-coordinate atom rows. */
  lemma {:induction false} ReshapeInvertsFlatten3(rows: seq<seq<real>>)
    requires AllRowsHaveLength(rows, 3)
    ensures VectorToAtoms(AtomsToVector(rows), 3) == Success(rows)
  {
    ReshapeInvertsFlatten(rows, 3);
  }

  // ---------------------------------------------------------------------
  // Line format

  /** Python's `str.isspace` characters, as `int` and `strip` use them. */
  predicate IsSpace(c: char)
  {
    c == ' ' || c == '\t' || c == '\n' || c == '\r' || c == '\U{0B}' || c == '\U{0C}'
  }

  predicate IsDigit(c: char) { '0' <= c <= '9' }

  /** `s.replace(" ", "")`: every space removed, every other character kept
      in order. */
  function RemoveSpaces(s: string): (r: string)
    ensures forall i :: 0 <= i < |r| ==> r[i] != ' '
    ensures |r| <= |s|
  {
    if |s| == 0 then ""
    else if s[0] == ' ' then RemoveSpaces(s[1..]) else [s[0]] + RemoveSpaces(s[1..])
  }

  /** Removing spaces keeps every other character, as often as it occurs. */
  lemma {:induction false} RemoveSpacesKeeps(s: string)
    ensures forall c :: c != ' ' ==> multiset(RemoveSpaces(s))[c] == multiset(s)[c]
    decreases |s|
  {
    if |s| > 0 {
      RemoveSpacesKeeps(s[1..]);
      assert s == [s[0]] + s[1..];
    }
  }

  /** Removing spaces from two strings one after the other removes them
      from their concatenation: the kept characters stay in their order. */
  lemma {:induction false} RemoveSpacesAppend(a: string, b: string)
    ensures RemoveSpaces(a + b) == RemoveSpaces(a) + RemoveSpaces(b)
    decreases |a|
  {
    if |a| > 0 {
      RemoveSpacesAppend(a[1..], b);
      assert (a + b)[0] == a[0] && (a + b)[1..] == a[1..] + b;
    } else {
      assert a + b == b;
    }
  }

  /** Read from the end: a last space is dropped and any other last
      character is kept last. */
  lemma {:induction false} RemoveSpacesSnoc(a: string, c: char)
    ensures RemoveSpaces(a + [c]) == RemoveSpaces(a) + (if c == ' ' then "" else [c])
  {
    RemoveSpacesAppend(a, [c]);
    assert [c][1..] == "";
  }

  /** Python slice `s[from:]`, empty when `from` is past the end. */
  function Drop(s: string, from: nat): string
  {
    if from <= |s| then s[from..] else ""
  }

  /** Python slice `s[:to]`, the whole string when it is shorter. */
  function Take(s: string, to: nat): string
  {
    if to <= |s| then s[..to] else s
  }

  /** The command of a line: its first two characters. */
  function Command(line: string): (c: string)
    ensures |c| == if |line| < 2 then |line| else 2
    ensures c <= line
  {
    Take(line, 2)
  }

  /** The value of a line: the line without spaces, from its fourth
      character on. */
  function Value(line: string): string
  {
    Drop(RemoveSpaces(line), 3)
  }

  function StripLeft(s: string): (r: string)
    ensures |r| <= |s| && r == s[|s| - |r|..]
    ensures |r| > 0 ==> !IsSpace(r[0])
    ensures forall i :: 0 <= i < |s| - |r| ==> IsSpace(s[i])
  {
    if |s| > 0 && IsSpace(s[0]) then StripLeft(s[1..]) else s
  }

  function StripRight(s: string): (r: string)
    ensures |r| <= |s| && r == s[..|r|]
    ensures |r| > 0 ==> !IsSpace(r[|r| - 1])
    ensures forall i :: |r| <= i < |s| ==> IsSpace(s[i])
  {
    if |s| > 0 && IsSpace(s[|s| - 1]) then StripRight(s[..|s| - 1]) else s
  }

  /** `s.strip()`. */
  function Strip(s: string): string
  {
    StripRight(StripLeft(s))
  }

  /** The value of a nonempty decimal digit string. */
  function DigitsValue(s: string): (n: nat)
    requires forall i :: 0 <= i < |s| ==> IsDigit(s[i])
  {
    if |s| == 0 then 0
    else
      assert IsDigit(s[|s| - 1]);
      DigitsValue(s[..|s| - 1]) * 10 + (s[|s| - 1] as int - '0' as int) as nat
  }

  predicate AllDigits(s: string)
  {
    |s| > 0 && forall i :: 0 <= i < |s| ==> IsDigit(s[i])
  }

  /** Python 2's `int(s)` on a string: surrounding whitespace is ignored, an
      optional sign is followed by at least one decimal digit; anything else
      is a ValueError. */
  function ParseInt(s: string): (r: Result<int>)
    ensures r.Failure? ==> r.error.ValueError?
    ensures r.Success? <==>
      var t := Strip(s);
      AllDigits(t) || (|t| > 1 && (t[0] == '-' || t[0] == '+') && AllDigits(t[1..]))
  {
    var t := Strip(s);
    if AllDigits(t) then Success(DigitsValue(t))
    else if |t| > 1 && t[0] == '-' && AllDigits(t[1..]) then Success(0 - DigitsValue(t[1..]))
    else if |t| > 1 && t[0] == '+' && AllDigits(t[1..]) then Success(DigitsValue(t[1..]))
    else Failure(ValueError("invalid literal for int()"))
  }

  /** The decimal digits of a natural number. */
  function ShowNat(n: nat): (s: string)
    ensures AllDigits(s)
    decreases n
  {
    if n < 10 then [('0' as int + n) as char]
    else ShowNat(n / 10) + [('0' as int + n % 10) as char]
  }

  /** The decimal form of an integer, as `str` writes it. */
  function ShowInt(n: int): (s: string)
  {
    if n < 0 then "-" + ShowNat(-n) else ShowNat(n)
  }

  lemma {:induction false} DigitsOfShowNat(n: nat)
    ensures DigitsValue(ShowNat(n)) == n
    decreases n
  {
    if n >= 10 {
      DigitsOfShowNat(n / 10);
      var s := ShowNat(n);
      assert s[..|s| - 1] == ShowNat(n / 10);
    }
  }

  lemma {:induction false} StripNoSpace(s: string)
    requires |s| > 0 && !IsSpace(s[0]) && !IsSpace(s[|s| - 1])
    ensures Strip(s) == s
  {
  }

  lemma {:induction false} StripLeftNoSpace(t: string)
    requires |t| > 0 && !IsSpace(t[0])
    ensures StripLeft(t) == t
  {
  }

  /** A number written by `str`, followed by whitespace, strips to itself. */
  lemma {:induction false} StripShown(s: string, trailer: string)
    requires |s| > 0 && (IsDigit(s[0]) || s[0] == '-') && IsDigit(s[|s| - 1])
    requires forall i :: 0 <= i < |trailer| ==> IsSpace(trailer[i])
    ensures Strip(s + trailer) == s
  {
    StripLeftNoSpace(s + trailer);
    StripRightTrailer(s, trailer);
  }

  /** `int` reads back what `str` writes, also with the line's newline
      still attached. */
  lemma {:induction false} ParseIntRoundTrip(n: int, trailer: string)
    requires forall i :: 0 <= i < |trailer| ==> IsSpace(trailer[i])
    ensures ParseInt(ShowInt(n) + trailer) == Success(n)
  {
    var s := ShowInt(n);
    if n < 0 {
      var digits := ShowNat(-n);
      assert s == "-" + digits;
      assert s[|s| - 1] == digits[|digits| - 1];
      StripShown(s, trailer);
      assert s[1..] == digits;
      assert !IsDigit(s[0]);
      DigitsOfShowNat(-n);
    } else {
      StripShown(s, trailer);
      DigitsOfShowNat(n);
    }
  }

  lemma {:induction false} StripRightTrailer(s: string, trailer: string)
    requires |s| > 0 && !IsSpace(s[|s| - 1])
    requires forall i :: 0 <= i < |trailer| ==> IsSpace(trailer[i])
    ensures StripRight(s + trailer) == s
    decreases |trailer|
  {
    if |trailer| > 0 {
      var t := s + trailer;
      assert t[..|t| - 1] == s + trailer[..|trailer| - 1];
      StripRightTrailer(s, trailer[..|trailer| - 1]);
    } else {
      assert s + trailer == s;
    }
  }

  // ---------------------------------------------------------------------
  // Reading the file

  /** The six two-letter commands, and everything else. */
  datatype Cmd = St | En | Ln | Gn | Pa | To | Unrecognised

  function CommandOf(line: string): (c: Cmd)
    ensures c == St <==> Command(line) == "st"
    ensures c == En <==> Command(line) == "en"
    ensures c == Ln <==> Command(line) == "ln"
    ensures c == Gn <==> Command(line) == "gn"
    ensures c == Pa <==> Command(line) == "pa"
    ensures c == To <==> Command(line) == "to"
  {
    var command := Command(line);
    if command == "st" then St
    else if command == "en" then En
    else if command == "ln" then Ln
    else if command == "gn" then Gn
    else if command == "pa" then Pa
    else if command == "to" then To
    else Unrecognised
  }

  /** What `read_configuration_file` needs from outside: `ase.io.read`
      followed by `get_positions` (None when it raises), `float` (None for a
      ValueError) and `numpy.fromstring(value, sep=',')`. */
  datatype Readers = Readers(
    readPositions: string -> Option<seq<seq<real>>>,
    parseFloat: string -> Option<real>,
    parseArray: string -> seq<real>)

  /** What an 'st' line assigns together: the molecule and its flattened
      positions. */
  datatype StartData = StartData(molecule: seq<seq<real>>, point: seq<real>)

  /** The local variables of `read_configuration_file` after some lines;
      `None` is a variable not yet assigned. */
  datatype Partial = Partial(
    start: Option<StartData>,
    end: Option<seq<real>>,
    localNodes: Option<int>,
    globalNodes: Option<int>,
    metricParameters: Option<seq<real>>,
    tolerance: Option<real>)
  {
    /** Whether the variable a command assigns has been assigned. */
    predicate Assigned(c: Cmd)
    {
      match c
      case St => start.Some?
      case En => end.Some?
      case Ln => localNodes.Some?
      case Gn => globalNodes.Some?
      case Pa => metricParameters.Some?
      case To => tolerance.Some?
      case Unrecognised => true
    }
  }

  const Unassigned: Partial := Partial(None, None, None, None, None, None)

  /** The dictionary returned at the end. */
  datatype Configuration = Configuration(
    startPoint: seq<real>,
    endPoint: seq<real>,
    dimension: nat,
    codimension: int,
    localNumberOfNodes: int,
    globalNumberOfNodes: int,
    metricParameters: seq<real>,
    tolerance: real,
    molecule: seq<seq<real>>)

  /** One pass of the loop body: dispatch on the line's command. Each
      command assigns its own variable and no other; an unrecognised command
      changes nothing. */
  function ReadLine(readers: Readers, p: Partial, line: string): (r: Result<Partial>)
    ensures CommandOf(line) == Unrecognised ==> r == Success(p)
    ensures r.Success? && CommandOf(line) != St ==> r.value.start == p.start
    ensures r.Success? && CommandOf(line) != En ==> r.value.end == p.end
    ensures r.Success? && CommandOf(line) != Ln ==> r.value.localNodes == p.localNodes
    ensures r.Success? && CommandOf(line) != Gn ==> r.value.globalNodes == p.globalNodes
    ensures r.Success? && CommandOf(line) != Pa ==> r.value.metricParameters == p.metricParameters
    ensures r.Success? && CommandOf(line) != To ==> r.value.tolerance == p.tolerance
    ensures r.Success? && CommandOf(line) != Unrecognised ==> r.value.Assigned(CommandOf(line))
    ensures CommandOf(line) == Ln ==> r.Success? == ParseInt(Value(line)).Success?
    ensures CommandOf(line) == Ln && r.Success? ==> Success(r.value.localNodes.value) == ParseInt(Value(line))
    ensures CommandOf(line) == Gn ==> r.Success? == ParseInt(Value(line)).Success?
    ensures CommandOf(line) == Gn && r.Success? ==> Success(r.value.globalNodes.value) == ParseInt(Value(line))
    ensures r.Success? && CommandOf(line) == St ==>
      r.value.start.value.point == AtomsToVector(r.value.start.value.molecule)
  {
    var value := Value(line);
    match CommandOf(line)
    case St =>
      (match readers.readPositions(Strip(value))
       case None => Failure(ValueError("could not read " + Strip(value)))
       case Some(positions) => Success(p.(start := Some(StartData(positions, AtomsToVector(positions))))))
    case En =>
      (match readers.readPositions(Strip(value))
       case None => Failure(ValueError("could not read " + Strip(value)))
       case Some(positions) => Success(p.(end := Some(AtomsToVector(positions)))))
    case Ln =>
      (match ParseInt(value)
       case Success(n) => Success(p.(localNodes := Some(n)))
       case Failure(e) => Failure(e))
    case Gn =>
      (match ParseInt(value)
       case Success(n) => Success(p.(globalNodes := Some(n)))
       case Failure(e) => Failure(e))
    case Pa => Success(p.(metricParameters := Some(readers.parseArray(value))))
    case To =>
      (match readers.parseFloat(value)
       case None => Failure(ValueError("could not convert string to float"))
       case Some(x) => Success(p.(tolerance := Some(x))))
    case Unrecognised => Success(p)
  }

  /** The loop over the file's lines, in order; the first raising line ends
      the read. */
  function ReadLines(readers: Readers, lines: seq<string>): (r: Result<Partial>)
    ensures r.Success? && r.value.start.Some? ==> r.value.start.value.point == AtomsToVector(r.value.start.value.molecule)
    decreases |lines|
  {
    if |lines| == 0 then Success(Unassigned)
    else
      var front := ReadLines(readers, lines[..|lines| - 1]);
      if front.Failure? then front
      else ReadLine(readers, front.value, lines[|lines| - 1])
  }

  /** The value of the last line carrying `command`, if any. */
  function LastValue(lines: seq<string>, command: Cmd): Option<string>
  {
    if |lines| == 0 then None
    else if CommandOf(lines[|lines| - 1]) == command then Some(Value(lines[|lines| - 1]))
    else LastValue(lines[..|lines| - 1], command)
  }

  /** Variable `c` of `p` is what reading the value `last` assigns to it,
      or unassigned when there is no such value. */
  ghost predicate ReadFrom(readers: Readers, p: Partial, c: Cmd, last: Option<string>)
  {
    match c
    case St =>
      if last.None? then p.start.None?
      else
        var positions := readers.readPositions(Strip(last.value));
        positions.Some? && p.start == Some(StartData(positions.value, AtomsToVector(positions.value)))
    case En =>
      if last.None? then p.end.None?
      else
        var positions := readers.readPositions(Strip(last.value));
        positions.Some? && p.end == Some(AtomsToVector(positions.value))
    case Ln =>
      if last.None? then p.localNodes.None?
      else ParseInt(last.value).Success? && p.localNodes == Some(ParseInt(last.value).value)
    case Gn =>
      if last.None? then p.globalNodes.None?
      else ParseInt(last.value).Success? && p.globalNodes == Some(ParseInt(last.value).value)
    case Pa =>
      if last.None? then p.metricParameters.None?
      else p.metricParameters == Some(readers.parseArray(last.value))
    case To =>
      if last.None? then p.tolerance.None?
      else readers.parseFloat(last.value).Some? && p.tolerance == readers.parseFloat(last.value)
    case Unrecognised => true
  }

  /** A line that was read sets its own command's variable from its value
      and leaves what the other variables were read from. */
  lemma {:induction false} ReadLineSets(readers: Readers, p: Partial, line: string, c: Cmd, last: Option<string>)
    requires ReadLine(readers, p, line).Success?
    ensures c == CommandOf(line) ==> ReadFrom(readers, ReadLine(readers, p, line).value, c, Some(Value(line)))
    ensures c != CommandOf(line) ==>
      (ReadFrom(readers, ReadLine(readers, p, line).value, c, last) <==> ReadFrom(readers, p, c, last))
  {
  }

  /** A later line overrides an earlier one with the same command: every
      variable holds what its command's last line assigns (the positions
      read from an 'st' or 'en' file, the integer of an 'ln' or 'gn' value,
      the array of a 'pa' value, the float of a 'to' value), and without
      such a line it stays unassigned. */
  lemma {:induction false} LastLineWins(readers: Readers, lines: seq<string>)
    requires ReadLines(readers, lines).Success?
    ensures forall c :: ReadFrom(readers, ReadLines(readers, lines).value, c, LastValue(lines, c))
    decreases |lines|
  {
    if |lines| > 0 {
      var init := lines[..|lines| - 1];
      var line := lines[|lines| - 1];
      LastLineWins(readers, init);
      var front := ReadLines(readers, init).value;
      forall c
        ensures ReadFrom(readers, ReadLines(readers, lines).value, c, LastValue(lines, c))
      {
        ReadLineSets(readers, front, line, c, LastValue(init, c));
      }
    }
  }

  /** Lines whose command is not one of the six leave every variable as it
      was. */
  lemma {:induction false} UnrecognisedLinesIgnored(readers: Readers, lines: seq<string>, extra: seq<string>)
    requires forall i :: 0 <= i < |extra| ==> CommandOf(extra[i]) == Unrecognised
    ensures ReadLines(readers, lines + extra) == ReadLines(readers, lines)
    decreases |extra|
  {
    if |extra| == 0 {
      assert lines + extra == lines;
    } else {
      var all := lines + extra;
      var init := extra[..|extra| - 1];
      assert all[..|all| - 1] == lines + init && all[|all| - 1] == extra[|extra| - 1];
      UnrecognisedLinesIgnored(readers, lines, init);
      ReadLastIgnored(readers, all, ReadLines(readers, lines));
    }
  }

  /** A last line with an unrecognised command leaves what the earlier
      lines read. */
  lemma {:induction false} ReadLastIgnored(readers: Readers, all: seq<string>, front: Result<Partial>)
    requires |all| > 0 && CommandOf(all[|all| - 1]) == Unrecognised
    requires ReadLines(readers, all[..|all| - 1]) == front
    ensures ReadLines(readers, all) == front
  {
  }

  /** The end of `read_configuration_file`: building the dictionary reads
      every variable, so the first one never assigned raises NameError. */
  function Finish(p: Partial): (r: Result<Configuration>)
    ensures r.Success? <==>
      p.start.Some? && p.end.Some? && p.localNodes.Some? && p.globalNodes.Some? && p.metricParameters.Some? && p.tolerance.Some?
    ensures r.Failure? ==> r.error.NameError?
    ensures r.Success? ==> r.value.dimension == |r.value.startPoint| && r.value.codimension == r.value.dimension - 1
    ensures r.Success? ==> r.value.localNumberOfNodes == p.localNodes.value && r.value.globalNumberOfNodes == p.globalNodes.value
  {
    if p.start.None? then Failure(NameError("start_point"))
    else if p.end.None? then Failure(NameError("end_point"))
    else if p.localNodes.None? then Failure(NameError("local_num_nodes"))
    else if p.globalNodes.None? then Failure(NameError("global_num_nodes"))
    else if p.metricParameters.None? then Failure(NameError("metric_parameters"))
    else if p.tolerance.None? then Failure(NameError("tol"))
    else
      var dimension := |p.start.value.point|;
      Success(Configuration(p.start.value.point, p.end.value, dimension, dimension - 1,
        p.localNodes.value, p.globalNodes.value, p.metricParameters.value, p.tolerance.value,
        p.start.value.molecule))
  }

  /** `read_configuration_file` on the lines of a file. */
  function ReadConfiguration(readers: Readers, lines: seq<string>): (r: Result<Configuration>)
    ensures r.Success? ==> r.value.dimension == |r.value.startPoint| && r.value.codimension == r.value.dimension - 1
    ensures r.Success? ==> r.value.startPoint == AtomsToVector(r.value.molecule)
  {
    var p :- ReadLines(readers, lines);
    Finish(p)
  }

  /** Without a line for a command, its variable is never assigned. */
  lemma {:induction false} NeverAssigned(readers: Readers, lines: seq<string>, command: Cmd)
    requires command != Unrecognised
    requires forall i :: 0 <= i < |lines| ==> CommandOf(lines[i]) != command
    requires ReadLines(readers, lines).Success?
    ensures !ReadLines(readers, lines).value.Assigned(command)
    decreases |lines|
  {
    if |lines| > 0 {
      NeverAssigned(readers, lines[..|lines| - 1], command);
    }
  }

  /** A file missing one of st/en/ln/gn/pa/to fails instead of producing a
      default. */
  lemma {:induction false} MissingCommandFails(readers: Readers, lines: seq<string>, command: Cmd)
    requires command != Unrecognised
    requires forall i :: 0 <= i < |lines| ==> CommandOf(lines[i]) != command
    ensures ReadConfiguration(readers, lines).Failure?
  {
    if ReadLines(readers, lines).Success? {
      NeverAssigned(readers, lines, command);
    }
  }
}
