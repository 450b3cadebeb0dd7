/** The query front end of the vendored ASE database (ase/db/core.py): key
    and value validation, the comparison operators and their negations,
    database type inference in `connect`, the tokeniser of selection
    strings, the rewriting of sort keys, the block split of `update`, and
    the parsing of time strings such as '2d' or '3h+30m'. The database
    backends, the wall clock and the chemical-formula conversions are not
    part of this model. */
module DatabaseCore {
  import opened Wrappers
  import ConfigurationProcessing

  // ---------------------------------------------------------------------
  // Strings

  /** `sub` occurs in `s` at position i. */
  predicate OccursAt(s: string, sub: string, i: int)
  {
    0 <= i && i + |sub| <= |s| && s[i..i + |sub|] == sub
  }

  /** `sub in s`. */
  predicate Contains(s: string, sub: string)
  {
    exists i :: 0 <= i <= |s| && OccursAt(s, sub, i)
  }

  /** `s.find(sub)`: the first position where `sub` occurs. */
  function Find(s: string, sub: string): (r: Option<nat>)
    ensures r.Some? <==> Contains(s, sub)
    ensures r.Some? ==> OccursAt(s, sub, r.value)
    ensures r.Some? ==> forall i :: 0 <= i < r.value ==> !OccursAt(s, sub, i)
    decreases |s|
  {
    if |s| < |sub| then None
    else if s[..|sub|] == sub then
      assert OccursAt(s, sub, 0);
      Some(0)
    else
      assert !OccursAt(s, sub, 0);
      match Find(s[1..], sub)
      case Some(j) =>
        OccursInTail(s, sub, j);
        assert forall i :: 0 <= i < j + 1 ==> !OccursAt(s, sub, i) by {
          forall i | 0 < i < j + 1
            ensures !OccursAt(s, sub, i)
          {
            OccursInTail(s, sub, i - 1);
          }
        }
        Some(j + 1)
      case None =>
        assert !Contains(s, sub) by {
          forall i | 0 < i <= |s|
            ensures !OccursAt(s, sub, i)
          {
            OccursInTail(s, sub, i - 1);
          }
        }
        None
  }

  /** An occurrence in the tail is an occurrence one position later in the
      whole string, and conversely. */
  lemma {:induction false} OccursInTail(s: string, sub: string, i: int)
    requires |s| > 0 && 0 <= i
    ensures OccursAt(s[1..], sub, i) <==> OccursAt(s, sub, i + 1)
  {
    if i + |sub| <= |s| - 1 {
      assert s[1..][i..i + |sub|] == s[i + 1..i + 1 + |sub|];
    }
  }

  /** An occurrence inside a prefix is an occurrence in the whole string. */
  lemma {:induction false} OccursInPrefix(s: string, sub: string, n: nat, i: int)
    requires n <= |s| && OccursAt(s[..n], sub, i)
    ensures OccursAt(s, sub, i)
  {
    assert s[..n][i..i + |sub|] == s[i..i + |sub|];
  }

  /** `s.split(sep)` for a nonempty separator: the pieces between
      non-overlapping occurrences, found from the left. */
  function Split(s: string, sep: string): (parts: seq<string>)
    requires |sep| > 0
    ensures |parts| >= 1
    ensures forall k :: 0 <= k < |parts| ==> !Contains(parts[k], sep)
    ensures forall k :: 0 <= k < |parts| ==> |parts[k]| <= |s|
    ensures Contains(s, sep) ==> |parts| >= 2 && forall k :: 0 <= k < |parts| ==> |parts[k]| < |s|
    ensures !Contains(s, sep) ==> parts == [s]
    decreases |s|
  {
    match Find(s, sep)
    case None => [s]
    case Some(i) =>
      BeforeFirstLacks(s, sep, i);
      [s[..i]] + Split(s[i + |sep|..], sep)
  }

  /** Nothing before the first occurrence contains the separator. */
  lemma {:induction false} BeforeFirstLacks(s: string, sep: string, i: nat)
    requires |sep| > 0 && Find(s, sep) == Some(i)
    ensures i <= |s| && !Contains(s[..i], sep)
  {
    if Contains(s[..i], sep) {
      var j :| OccursAt(s[..i], sep, j);
      OccursInPrefix(s, sep, i, j);
    }
  }

  /** `sep.join(parts)`. */
  function Join(parts: seq<string>, sep: string): string
  {
    if |parts| == 0 then "" else if |parts| == 1 then parts[0] else parts[0] + sep + Join(parts[1..], sep)
  }

  /** Splitting and joining with the same separator gives the string back. */
  lemma {:induction false} JoinSplit(s: string, sep: string)
    requires |sep| > 0
    ensures Join(Split(s, sep), sep) == s
    decreases |s|
  {
    match Find(s, sep)
    case None =>
    case Some(i) =>
      var rest := s[i + |sep|..];
      JoinSplit(rest, sep);
      var tail := Split(rest, sep);
      assert Split(s, sep) == [s[..i]] + tail;
      JoinCons(s[..i], tail, sep);
      AroundOccurrence(s, sep, i);
  }

  /** Joining a piece in front of at least one more puts the separator
      between it and the join of the others. */
  lemma {:induction false} JoinCons(head: string, tail: seq<string>, sep: string)
    requires |tail| >= 1
    ensures Join([head] + tail, sep) == head + sep + Join(tail, sep)
  {
    assert ([head] + tail)[1..] == tail;
  }

  /** A string is what precedes an occurrence, the occurrence, and what
      follows it. */
  lemma {:induction false} AroundOccurrence(s: string, sub: string, i: nat)
    requires OccursAt(s, sub, i)
    ensures s[..i] + sub + s[i + |sub|..] == s
  {
    assert s == s[..i] + s[i..i + |sub|] + s[i + |sub|..];
  }

  /** `s.split(sep, 1)` when `sep` occurs: the parts before and after its
      first occurrence. */
  function SplitOnce(s: string, sep: string): (r: (string, string))
    requires |sep| > 0 && Contains(s, sep)
    ensures r.0 + sep + r.1 == s
    ensures !Contains(r.0, sep)
  {
    var i := Find(s, sep).value;
    var head := s[..i];
    assert !Contains(head, sep) by {
      if Contains(head, sep) {
        var j :| OccursAt(head, sep, j);
        OccursInPrefix(s, sep, i, j);
      }
    }
    assert s == head + sep + s[i + |sep|..];
    (head, s[i + |sep|..])
  }

  /** `s.count(c)` for a single character. */
  function CountChar(s: string, c: char): (n: nat)
    ensures n <= |s|
  {
    if |s| == 0 then 0 else (if s[0] == c then 1 else 0) + CountChar(s[1..], c)
  }

  /** `c in s` exactly when `s.count(c)` is positive. */
  lemma {:induction false} CountCharContains(s: string, c: char)
    ensures CountChar(s, c) > 0 <==> Contains(s, [c])
    decreases |s|
  {
    if |s| > 0 {
      CountCharContains(s[1..], c);
      if s[0] == c {
        assert OccursAt(s, [c], 0);
      } else if Contains(s[1..], [c]) {
        var i :| 0 <= i <= |s[1..]| && OccursAt(s[1..], [c], i);
        OccursInTail(s, [c], i);
      } else if Contains(s, [c]) {
        var i :| 0 <= i <= |s| && OccursAt(s, [c], i);
        assert s[i..i + 1][0] == s[i];
        OccursInTail(s, [c], i - 1);
      }
    }
  }

  predicate IsAsciiLetter(c: char) { 'a' <= c <= 'z' || 'A' <= c <= 'Z' }

  predicate IsWordChar(c: char) { c == '_' || IsAsciiLetter(c) || ConfigurationProcessing.IsDigit(c) }

  // ---------------------------------------------------------------------
  // `check`

  /** The pattern `[_a-zA-Z][_0-9a-zA-Z]*` matching the whole string. */
  predicate IsIdentifier(s: string)
  {
    |s| > 0 && (s[0] == '_' || IsAsciiLetter(s[0])) && forall i :: 1 <= i < |s| ==> IsWordChar(s[i])
  }

  /** `word.match(key)` with `word = re.compile('[_a-zA-Z][_0-9a-zA-Z]*$')`:
      `match` anchors at the start only, and `$` also matches just before a
      final newline, so an identifier followed by one newline matches too. */
  predicate WordMatchAsWritten(key: string)
  {
    IsIdentifier(key) || (|key| > 0 && key[|key| - 1] == '\n' && IsIdentifier(key[..|key| - 1]))
  }

  /** The names `check` refuses as keys; `extra` stands for
      `all_properties + all_changes`, which come from the calculator
      module. */
  predicate IsReserved(key: string, extra: set<string>)
  {
    key in extra || key in {"id", "unique_id", "ctime", "mtime", "user", "momenta", "constraints",
                             "calculator", "calculator_parameters", "key_value_pairs", "data"}
  }

  /** A value in a key-value pair or a selection: `bool` is a subclass of
      `int`, so it passes the type test of `check`; `None` and any other
      object (kept with its `str`) do not. */
  datatype DbValue = IntV(i: int) | FloatV(x: real) | StrV(s: string) | BoolV(b: bool) | NoneV | OtherV(text: string)

  predicate ValueAccepted(v: DbValue)
  {
    v.IntV? || v.FloatV? || v.StrV? || v.BoolV?
  }

  /** The key test of `check` with the regular expression anchored at the
      end of the string. */
  predicate KeyAccepted(key: string, extra: set<string>)
  {
    IsIdentifier(key) && !IsReserved(key, extra)
  }

  /** The key test of `check` as written. */
  predicate KeyAcceptedAsWritten(key: string, extra: set<string>)
  {
    WordMatchAsWritten(key) && !IsReserved(key, extra)
  }

  /** The key test as written lets a key with a trailing newline through. */
  lemma {:induction false} TrailingNewlineKeyAccepted(extra: set<string>)
    requires "energy\n" !in extra
    ensures KeyAcceptedAsWritten("energy\n", extra)
    ensures !KeyAccepted("energy\n", extra)
  {
    assert "energy\n"[..6] == "energy";
    assert !IsIdentifier("energy\n") by {
      assert !IsWordChar("energy\n"[6]);
    }
  }

  /** The anchored test differs from the written one only on keys ending in
      a newline. */
  lemma {:induction false} KeyTestsDiffer(key: string, extra: set<string>)
    ensures KeyAccepted(key, extra) ==> KeyAcceptedAsWritten(key, extra)
    ensures KeyAcceptedAsWritten(key, extra) && !KeyAccepted(key, extra) ==> |key| > 0 && key[|key| - 1] == '\n'
  {
  }

  /** Which program a member follows: the code as written, or the code as
      evidently intended. The two differ in the key test of `check` and in
      the operator of the 'age' rewrite. */
  datatype Variant = AsWritten | Corrected

  /** The key test of `check` in the given variant. */
  predicate KeyTest(variant: Variant, key: string, extra: set<string>)
  {
    match variant
    case AsWritten => KeyAcceptedAsWritten(key, extra)
    case Corrected => KeyAccepted(key, extra)
  }

  /** A pair `check` lets through: its key passes the key test of the
      variant and its value has an accepted type. */
  predicate PairAccepted(variant: Variant, pair: (string, DbValue), extra: set<string>)
  {
    KeyTest(variant, pair.0, extra) && ValueAccepted(pair.1)
  }

  /** On the pair ("energy\n", 1) the two variants of `check` part: the
      code as written accepts it, the anchored key test refuses it. */
  lemma {:induction false} CheckVariantsDiffer(extra: set<string>)
    requires "energy\n" !in extra
    ensures Check(AsWritten, [("energy\n", IntV(1))], extra) == Success(())
    ensures Check(Corrected, [("energy\n", IntV(1))], extra) == Failure(ValueError("Bad key: energy\n"))
  {
    var pairs := [("energy\n", IntV(1))];
    TrailingNewlineKeyAccepted(extra);
    assert pairs[1..] == [];
    assert Check(AsWritten, pairs[1..], extra) == Success(());
  }

  /** `check(key_value_pairs)`, pairs in the order the dictionary yields
      them: the first pair with a bad key or a bad value raises. */
  function Check(variant: Variant, pairs: seq<(string, DbValue)>, extra: set<string>): (r: Result<()>)
    ensures r.Success? <==> forall k :: 0 <= k < |pairs| ==> PairAccepted(variant, pairs[k], extra)
    ensures r.Failure? ==> exists k :: 0 <= k < |pairs| && FirstBad(variant, pairs, extra, k) && r.error == BadPairError(variant, pairs[k], extra)
    decreases |pairs|
  {
    if |pairs| == 0 then Success(())
    else if !PairAccepted(variant, pairs[0], extra) then
      assert FirstBad(variant, pairs, extra, 0);
      Failure(BadPairError(variant, pairs[0], extra))
    else
      var rest := Check(variant, pairs[1..], extra);
      assert forall k :: 1 <= k < |pairs| ==> pairs[1..][k - 1] == pairs[k];
      if rest.Failure? then
        var k :| 0 <= k < |pairs[1..]| && FirstBad(variant, pairs[1..], extra, k) && rest.error == BadPairError(variant, pairs[1..][k], extra);
        assert FirstBad(variant, pairs, extra, k + 1);
        rest
      else rest
  }

  /** Pair k is bad and every pair before it is good. */
  predicate FirstBad(variant: Variant, pairs: seq<(string, DbValue)>, extra: set<string>, k: int)
  {
    && 0 <= k < |pairs|
    && !PairAccepted(variant, pairs[k], extra)
    && forall j :: 0 <= j < k ==> PairAccepted(variant, pairs[j], extra)
  }

  /** The error for a bad pair: the key is tested before the value. */
  function BadPairError(variant: Variant, pair: (string, DbValue), extra: set<string>): PyError
    requires !PairAccepted(variant, pair, extra)
  {
    if !KeyTest(variant, pair.0, extra) then ValueError("Bad key: " + pair.0)
    else ValueError("Bad value: " + ValueText(pair.1))
  }

  /** `str(v)` of a value that is not a number. */
  function ValueText(v: DbValue): string
    requires v.StrV? || v.NoneV? || v.OtherV?
  {
    match v
    case StrV(s) => s
    case NoneV => "None"
    case OtherV(text) => text
  }

  // ---------------------------------------------------------------------
  // Operators

  datatype Op = Lt | Le | Eq | Ge | Gt | Ne

  /** The keys of the `ops` dictionary. */
  function Symbol(op: Op): (s: string)
    ensures 1 <= |s| <= 2
  {
    match op
    case Lt => "<"
    case Le => "<="
    case Eq => "="
    case Ge => ">="
    case Gt => ">"
    case Ne => "!="
  }

  /** Looking an operator string up in `ops`. */
  function ParseOp(s: string): (r: Option<Op>)
    ensures r.Some? ==> Symbol(r.value) == s
  {
    if s == "<" then Some(Lt)
    else if s == "<=" then Some(Le)
    else if s == "=" then Some(Eq)
    else if s == ">=" then Some(Ge)
    else if s == ">" then Some(Gt)
    else if s == "!=" then Some(Ne)
    else None
  }

  lemma {:induction false} ParseSymbol(op: Op)
    ensures ParseOp(Symbol(op)) == Some(op)
  {
  }

  /** `ops[op](a, b)`. */
  predicate Holds(op: Op, a: real, b: real)
  {
    match op
    case Lt => a < b
    case Le => a <= b
    case Eq => a == b
    case Ge => a >= b
    case Gt => a > b
    case Ne => a != b
  }

  /** The `invop` table. */
  function Invop(op: Op): Op
  {
    match op
    case Lt => Ge
    case Le => Gt
    case Ge => Lt
    case Gt => Le
    case Eq => Ne
    case Ne => Eq
  }

  /** `invop` is the logical negation of each operator, and applying it
      twice gives the operator back. */
  lemma {:induction false} InvopNegates(op: Op, a: real, b: real)
    ensures Holds(Invop(op), a, b) <==> !Holds(op, a, b)
    ensures Invop(Invop(op)) == op
  {
  }

  /** `invop[op]` on an operator string: a string that is not a key of the
      table raises KeyError. */
  function InvopLookup(s: string): (r: Result<string>)
    ensures r.Success? <==> ParseOp(s).Some?
    ensures r.Success? ==> ParseOp(r.value) == Some(Invop(ParseOp(s).value))
    ensures r.Failure? ==> r.error == KeyError(s)
  {
    match ParseOp(s)
    case None => Failure(KeyError(s))
    case Some(op) =>
      ParseSymbol(Invop(op));
      Success(Symbol(Invop(op)))
  }

  // ---------------------------------------------------------------------
  // `connect`

  /** The last position of `c` in `s`, or -1 (`s.rfind(c)`). */
  function RFind(s: string, c: char): (r: int)
    ensures -1 <= r < |s|
    ensures r >= 0 ==> s[r] == c
    ensures forall i :: r < i < |s| ==> s[i] != c
  {
    if |s| == 0 then -1
    else if s[|s| - 1] == c then |s| - 1
    else RFind(s[..|s| - 1], c)
  }

  /** `os.path.splitext` for POSIX paths: the extension starts at the last
      dot of the last path component, unless that component consists of
      dots up to there (a leading dot does not start an extension). */
  function SplitExt(path: string): (r: (string, string))
    ensures r.0 + r.1 == path
    ensures r.1 == "" || (r.1[0] == '.' && forall i :: 1 <= i < |r.1| ==> r.1[i] != '.' && r.1[i] != '/')
  {
    var sep := RFind(path, '/');
    var dot := RFind(path, '.');
    if dot > sep && exists k :: sep + 1 <= k < dot && path[k] != '.' then
      TailAfterLast(path, sep, dot);
      (path[..dot], path[dot..])
    else (path, "")
  }

  /** The text from the last dot on, when that dot follows the last slash,
      holds no other dot and no slash. */
  lemma {:induction false} TailAfterLast(path: string, sep: int, dot: int)
    requires -1 <= sep < dot < |path| && path[dot] == '.'
    requires forall i :: sep < i < |path| ==> path[i] != '/'
    requires forall i :: dot < i < |path| ==> path[i] != '.'
    ensures path[..dot] + path[dot..] == path
    ensures var t := path[dot..]; t[0] == '.' && forall i :: 1 <= i < |t| ==> t[i] != '.' && t[i] != '/'
  {
    var t := path[dot..];
    forall i | 1 <= i < |t| ensures t[i] != '.' && t[i] != '/' {
      assert t[i] == path[dot + i];
    }
  }

  /** `os.path.splitext(name)[1][1:]`. */
  function Extension(name: string): string
  {
    ConfigurationProcessing.Drop(SplitExt(name).1, 1)
  }

  /** A name whose last character is neither a dot nor a slash, followed by
      '.' and an extension without dots or slashes, has that extension. */
  lemma {:induction false} ExtensionOf(stem: string, ext: string)
    requires |stem| > 0 && stem[|stem| - 1] != '.' && stem[|stem| - 1] != '/'
    requires forall i :: 0 <= i < |ext| ==> ext[i] != '.' && ext[i] != '/'
    ensures Extension(stem + "." + ext) == ext
  {
    var path := stem + "." + ext;
    var dot := RFind(path, '.');
    var sep := RFind(path, '/');
    assert path[|stem|] == '.';
    assert forall i :: |stem| < i < |path| ==> path[i] == ext[i - |stem| - 1];
    assert dot == |stem|;
    assert sep < |stem| - 1;
    assert path[|stem| - 1] != '.';
    assert path[dot..] == "." + ext;
  }

  /** The database object `connect` returns; each backend keeps the name it
      was given (the PostgreSQL one without its 'pg://' prefix). */
  datatype Backend =
    | PlainDatabase
    | JsonDatabase(name: Option<string>)
    | SqliteDatabase(name: Option<string>)
    | PostgresDatabase(address: string)

  predicate StartsWith(s: string, prefix: string)
  {
    |prefix| <= |s| && s[..|prefix|] == prefix
  }

  /** The type `connect` infers from the name when none is given. */
  function InferType(name: Option<string>): (t: Option<string>)
    ensures name.None? <==> t.None?
    ensures name.Some? && StartsWith(name.value, "pg://") ==> t == Some("postgresql")
    ensures name.Some? && !StartsWith(name.value, "pg://") ==> t == Some(Extension(name.value))
  {
    match name
    case None => None
    case Some(n) => if StartsWith(n, "pg://") then Some("postgresql") else Some(Extension(n))
  }

  /** The type `connect` works with: the inferred one when the argument is
      'extract_from_name', the argument otherwise. */
  function EffectiveType(name: Option<string>, dbType: Option<string>): Option<string>
  {
    if dbType == Some("extract_from_name") then InferType(name) else dbType
  }

  const KnownTypes: set<string> := {"json", "db", "postgresql"}

  /** `connect(name, type)`, where `None` is Python's None and the default
      type is 'extract_from_name'. Slicing a missing name for PostgreSQL is
      a TypeError; a type with no backend is a ValueError naming it. */
  function Connect(name: Option<string>, dbType: Option<string>): (r: Result<Backend>)
    ensures EffectiveType(name, dbType).None? <==> r == Success(PlainDatabase)
    ensures EffectiveType(name, dbType) == Some("json") <==> r == Success(JsonDatabase(name))
    ensures EffectiveType(name, dbType) == Some("db") <==> r == Success(SqliteDatabase(name))
    ensures (EffectiveType(name, dbType) == Some("postgresql") && name.Some?) <==> (r.Success? && r.value.PostgresDatabase?)
    ensures r.Success? && r.value.PostgresDatabase? ==>
      name.Some? && r.value.address == ConfigurationProcessing.Drop(name.value, 5)
    ensures (EffectiveType(name, dbType) == Some("postgresql") && name.None?) <==> r == Failure(TypeError)
    ensures (EffectiveType(name, dbType).Some? && EffectiveType(name, dbType).value !in KnownTypes)
      <==> (r.Failure? && r.error.ValueError?)
    ensures r.Failure? && r.error.ValueError? ==>
      r.error == ValueError("Unknown database type: " + EffectiveType(name, dbType).value)
  {
    match EffectiveType(name, dbType)
    case None => Success(PlainDatabase)
    case Some(kind) =>
      if kind == "json" then Success(JsonDatabase(name))
      else if kind == "db" then Success(SqliteDatabase(name))
      else if kind == "postgresql" then
        (match name
         case None => Failure(TypeError)
         case Some(n) => Success(PostgresDatabase(ConfigurationProcessing.Drop(n, 5))))
      else Failure(ValueError("Unknown database type: " + kind))
  }

  lemma {:induction false} NotPgAfterDot(stem: string, suffix: string)
    requires !StartsWith(stem, "pg://") && |suffix| > 0 && suffix[0] == '.'
    ensures !StartsWith(stem + suffix, "pg://")
  {
    var x := stem + suffix;
    if |x| >= 5 {
      if |stem| >= 5 {
        assert x[..5] == stem[..5];
      } else {
        assert x[..5][|stem|] == '.';
      }
    }
  }

  /** By default a 'pg://' address connects to PostgreSQL at the rest of the
      address, and a file name connects by its extension. */
  lemma {:induction false} ConnectByName(stem: string, address: string)
    requires |stem| > 0 && stem[|stem| - 1] != '.' && stem[|stem| - 1] != '/'
    requires !StartsWith(stem, "pg://")
    ensures Connect(Some("pg://" + address), Some("extract_from_name")) == Success(PostgresDatabase(address))
    ensures Connect(Some(stem + ".json"), Some("extract_from_name")) == Success(JsonDatabase(Some(stem + ".json")))
    ensures Connect(Some(stem + ".db"), Some("extract_from_name")) == Success(SqliteDatabase(Some(stem + ".db")))
    ensures Connect(None, Some("extract_from_name")) == Success(PlainDatabase)
  {
    ConnectPg(address);
    ConnectJson(stem);
    ConnectDb(stem);
  }

  /** A file name that is only an extension, such as ".json", has no
      extension for `splitext`, so the type cannot be inferred. */
  lemma {:induction false} BareExtensionUnknown()
    ensures Connect(Some(".json"), Some("extract_from_name")) == Failure(ValueError("Unknown database type: "))
  {
    var name := ".json";
    assert name[0] == '.' && name[1] == 'j' && name[2] == 's' && name[3] == 'o' && name[4] == 'n';
    assert RFind(name, '.') == 0;
    assert RFind(name, '/') == -1;
    assert SplitExt(name) == (name, "");
    assert !StartsWith(name, "pg://") by { assert name[0] != "pg://"[0]; }
    assert InferType(Some(name)) == Some("");
  }

  lemma {:induction false} ConnectPg(address: string)
    ensures Connect(Some("pg://" + address), Some("extract_from_name")) == Success(PostgresDatabase(address))
  {
    assert ("pg://" + address)[..5] == "pg://";
    assert ("pg://" + address)[5..] == address;
  }

  lemma {:induction false} ConnectJson(stem: string)
    requires |stem| > 0 && stem[|stem| - 1] != '.' && stem[|stem| - 1] != '/'
    requires !StartsWith(stem, "pg://")
    ensures Connect(Some(stem + ".json"), Some("extract_from_name")) == Success(JsonDatabase(Some(stem + ".json")))
  {
    ExtensionOf(stem, "json");
    assert stem + "." + "json" == stem + ".json";
    NotPgAfterDot(stem, ".json");
  }

  lemma {:induction false} ConnectDb(stem: string)
    requires |stem| > 0 && stem[|stem| - 1] != '.' && stem[|stem| - 1] != '/'
    requires !StartsWith(stem, "pg://")
    ensures Connect(Some(stem + ".db"), Some("extract_from_name")) == Success(SqliteDatabase(Some(stem + ".db")))
  {
    ExtensionOf(stem, "db");
    assert stem + "." + "db" == stem + ".db";
    NotPgAfterDot(stem, ".db");
  }

  // ---------------------------------------------------------------------
  // `time_string_to_float`

  /** `s` has no character `c`. */
  predicate Lacks(s: string, c: char)
  {
    forall i :: 0 <= i < |s| ==> s[i] != c
  }

  lemma {:induction false} LacksIffNotContains(s: string, c: char)
    ensures Lacks(s, c) <==> !Contains(s, [c])
  {
    if !Lacks(s, c) {
      var i :| 0 <= i < |s| && s[i] == c;
      assert OccursAt(s, [c], i);
    }
    if Contains(s, [c]) {
      var i :| 0 <= i <= |s| && OccursAt(s, [c], i);
      assert s[i..i + 1][0] == s[i];
    }
  }

  /** The first occurrence of a character is right after the longest
      prefix without it. */
  lemma {:induction false} FindChar(a: string, c: char, b: string)
    requires Lacks(a, c)
    ensures Find(a + [c] + b, [c]) == Some(|a|)
  {
    var s := a + [c] + b;
    assert OccursAt(s, [c], |a|);
    forall k | 0 <= k < |a|
      ensures !OccursAt(s, [c], k)
    {
      assert s[k..k + 1] == [a[k]];
    }
  }

  /** `s.split(c, 1)` at the first occurrence of a character. */
  lemma {:induction false} SplitOnceAtChar(a: string, c: char, b: string)
    requires Lacks(a, c)
    ensures Contains(a + [c] + b, [c])
    ensures SplitOnce(a + [c] + b, [c]) == (a, b)
  {
    var s := a + [c] + b;
    FindChar(a, c, b);
    assert s[..|a|] == a;
    assert s[|a| + 1..] == b;
  }

  /** Splitting on a character that occurs exactly once gives the two
      sides. */
  lemma {:induction false} SplitAtChar(a: string, c: char, b: string)
    requires Lacks(a, c) && Lacks(b, c)
    ensures Split(a + [c] + b, [c]) == [a, b]
  {
    var s := a + [c] + b;
    FindChar(a, c, b);
    LacksIffNotContains(b, c);
    assert s[..|a|] == a;
    assert s[|a| + 1..] == b;
  }

  /** Seconds per year, 365.25 days (`YEAR`). */
  const Year: real := 31557600.0

  /** The `seconds` table: the length of each unit in seconds. A year is
      `YEAR`, a whole number of seconds. */
  function UnitSeconds(unit: string): (r: Result<nat>)
    ensures r.Success? <==> unit in {"s", "m", "h", "d", "w", "M", "y"}
    ensures r.Failure? ==> r.error == KeyError(unit)
    ensures r.Success? ==> r.value > 0
  {
    if unit == "s" then Success(1)
    else if unit == "m" then Success(60)
    else if unit == "h" then Success(3600)
    else if unit == "d" then Success(86400)
    else if unit == "w" then Success(604800)
    else if unit == "M" then Success(2629800)
    else if unit == "y" then Success(31557600)
    else Failure(KeyError(unit))
  }

  /** The units agree with each other: a minute is 60 seconds, an hour 60
      minutes, a day 24 hours, a week 7 days, a year 365.25 days and a
      month a twelfth of a year. */
  lemma {:induction false} UnitsAgree()
    ensures UnitSeconds("m").value == 60 * UnitSeconds("s").value
    ensures UnitSeconds("h").value == 60 * UnitSeconds("m").value
    ensures UnitSeconds("d").value == 24 * UnitSeconds("h").value
    ensures UnitSeconds("w").value == 7 * UnitSeconds("d").value
    ensures 4 * UnitSeconds("y").value == 1461 * UnitSeconds("d").value
    ensures 12 * UnitSeconds("M").value == UnitSeconds("y").value
    ensures UnitSeconds("y").value as real == Year
  {
  }

  /** The loop `while s[i].isdigit(): i += 1` from position i: the first
      non-digit at or after i, or `None` when the digits run to the end
      (where `s[i]` raises IndexError). */
  function DigitRunEnd(s: string, i: nat): (r: Option<nat>)
    requires i <= |s|
    ensures r.Some? ==> i <= r.value < |s| && !ConfigurationProcessing.IsDigit(s[r.value])
    ensures r.Some? ==> forall k :: i <= k < r.value ==> ConfigurationProcessing.IsDigit(s[k])
    ensures r.None? <==> forall k :: i <= k < |s| ==> ConfigurationProcessing.IsDigit(s[k])
    decreases |s| - i
  {
    if i == |s| then None
    else if ConfigurationProcessing.IsDigit(s[i]) then DigitRunEnd(s, i + 1)
    else Some(i)
  }

  /** One term of a time string, without spaces or '+', in seconds: a
      plural 's' after a letter is dropped, the count is everything before
      the first non-digit from the second character on, and the unit is the
      rest. The unit is looked up before the count is converted. */
  function TermSeconds(s: string): (r: Result<int>)
    ensures |s| < 2 ==> r == Failure(IndexError)
    ensures r.Failure? ==> r.error == IndexError || r.error.KeyError? || r.error.ValueError?
  {
    if |s| < 2 then Failure(IndexError) else CountTimesUnit(DropPlural(s))
  }

  /** The term without a plural 's' after a letter. */
  function DropPlural(s: string): (t: string)
    requires |s| >= 2
    ensures |t| >= 1
  {
    if IsAsciiLetter(s[|s| - 2]) && s[|s| - 1] == 's' then s[..|s| - 1] else s
  }

  /** The count (everything before the first non-digit from the second
      character on) times the seconds of the unit (the rest). */
  function CountTimesUnit(t: string): (r: Result<int>)
    requires |t| >= 1
    ensures r.Failure? ==> r.error == IndexError || r.error.KeyError? || r.error.ValueError?
  {
    match DigitRunEnd(t, 1)
    case None => Failure(IndexError)
    case Some(i) =>
      var secs :- UnitSeconds(t[i..]);
      var count :- ConfigurationProcessing.ParseInt(t[..i]);
      Success(secs * count)
  }

  /** A term in years: a whole number of seconds divided by `YEAR`. */
  function TimeTerm(s: string): (r: Result<real>)
    ensures r.Success? <==> TermSeconds(s).Success?
    ensures r.Failure? ==> r.error == TermSeconds(s).error
  {
    var seconds :- TermSeconds(s);
    Success(seconds as real / Year)
  }

  /** `sum(...)` over the terms' values, left to right: the first failing
      term raises. */
  function SumResults(terms: seq<Result<real>>): (r: Result<real>)
    ensures r.Success? <==> forall k :: 0 <= k < |terms| ==> terms[k].Success?
    ensures r.Failure? ==> exists k :: (0 <= k < |terms| && terms[k] == Failure(r.error)
      && forall j :: 0 <= j < k ==> terms[j].Success?)
  {
    if |terms| == 0 then Success(0.0)
    else
      var first :- terms[0];
      assert forall k :: 1 <= k < |terms| ==> terms[1..][k - 1] == terms[k];
      var rest :- SumResults(terms[1..]);
      Success(first + rest)
  }

  /** Each '+'-separated term in years. */
  function TimeTerms(parts: seq<string>): (r: seq<Result<real>>)
    ensures |r| == |parts| && forall k :: 0 <= k < |parts| ==> r[k] == TimeTerm(parts[k])
  {
    seq(|parts|, k requires 0 <= k < |parts| => TimeTerm(parts[k]))
  }

  /** `time_string_to_float` on a string: spaces are removed, and a string
      with '+' is the sum of its '+'-separated terms. Each term is free of
      spaces and '+', so the recursive call on it is `TimeTerm`. */
  function TimeText(s: string): Result<real>
  {
    var u := ConfigurationProcessing.RemoveSpaces(s);
    if Contains(u, "+") then SumResults(TimeTerms(Split(u, "+"))) else TimeTerm(u)
  }

  /** `time_string_to_float` on any value: numbers pass through (`bool` is
      an `int`), a string is parsed, and anything else has no `replace`. */
  function TimeValue(v: DbValue): (r: Result<real>)
    ensures v.IntV? ==> r == Success(v.i as real)
    ensures v.FloatV? ==> r == Success(v.x)
    ensures v.StrV? ==> r == TimeText(v.s)
    ensures v.NoneV? || v.OtherV? ==> r == Failure(AttributeError)
  {
    match v
    case IntV(n) => Success(n as real)
    case FloatV(x) => Success(x)
    case BoolV(b) => Success(if b then 1.0 else 0.0)
    case StrV(s) => TimeText(s)
    case _ => Failure(AttributeError)
  }

  /** A string without spaces is its own `replace(' ', '')`. */
  lemma {:induction false} RemoveSpacesNone(s: string)
    requires Lacks(s, ' ')
    ensures ConfigurationProcessing.RemoveSpaces(s) == s
    decreases |s|
  {
    if |s| > 0 {
      RemoveSpacesNone(s[1..]);
      assert s == [s[0]] + s[1..];
    }
  }

  /** The digit scan stops at the first non-digit. */
  lemma {:induction false} DigitRunEndAt(s: string, i: nat, j: nat)
    requires i <= j < |s| && !ConfigurationProcessing.IsDigit(s[j])
    requires forall k :: i <= k < j ==> ConfigurationProcessing.IsDigit(s[k])
    ensures DigitRunEnd(s, i) == Some(j)
    decreases j - i
  {
    if i < j {
      DigitRunEndAt(s, i + 1, j);
    }
  }

  /** A term with no plural 's', whose unit and count are both valid. */
  lemma {:induction false} TermSecondsParts(s: string, i: nat)
    requires |s| >= 2 && !(IsAsciiLetter(s[|s| - 2]) && s[|s| - 1] == 's')
    requires DigitRunEnd(s, 1) == Some(i)
    requires UnitSeconds(s[i..]).Success? && ConfigurationProcessing.ParseInt(s[..i]).Success?
    ensures TermSeconds(s) == Success(UnitSeconds(s[i..]).value * ConfigurationProcessing.ParseInt(s[..i]).value)
  {
  }

  /** Everything after the first character of a written integer is a
      digit, and so is its last character. */
  lemma {:induction false} ShownIntDigits(count: int)
    ensures var w := ConfigurationProcessing.ShowInt(count);
      |w| >= 1 && ConfigurationProcessing.IsDigit(w[|w| - 1])
      && forall k :: 1 <= k < |w| ==> ConfigurationProcessing.IsDigit(w[k])
  {
    var w := ConfigurationProcessing.ShowInt(count);
    if count < 0 {
      var digits := ConfigurationProcessing.ShowNat(-count);
      assert w == "-" + digits;
      assert forall k :: 1 <= k < |w| ==> w[k] == digits[k - 1];
    }
  }

  /** `int` reads back what `str` writes. */
  lemma {:induction false} ParseShownInt(n: int)
    ensures ConfigurationProcessing.ParseInt(ConfigurationProcessing.ShowInt(n)) == Success(n)
  {
    ConfigurationProcessing.ParseIntRoundTrip(n, "");
    assert ConfigurationProcessing.ShowInt(n) + "" == ConfigurationProcessing.ShowInt(n);
  }

  /** A count written as `str` writes it, followed by a unit, reads back as
      that many units, in years. */
  lemma {:induction false} TimeTermOfCount(count: int, unit: char)
    requires UnitSeconds([unit]).Success?
    ensures TermSeconds(ConfigurationProcessing.ShowInt(count) + [unit]) == Success(UnitSeconds([unit]).value * count)
    ensures TimeTerm(ConfigurationProcessing.ShowInt(count) + [unit]).Success?
  {
    var w := ConfigurationProcessing.ShowInt(count);
    var s := w + [unit];
    ShownIntDigits(count);
    assert s[|s| - 2] == w[|w| - 1];
    assert forall k :: 1 <= k < |w| ==> s[k] == w[k];
    DigitRunEndAt(s, 1, |w|);
    assert s[|w|..] == [unit];
    assert s[..|w|] == w;
    ParseShownInt(count);
    TermSecondsParts(s, |w|);
  }

  /** A plural 's' after the unit letter is ignored. */
  lemma {:induction false} TimeTermPlural(count: int, unit: char)
    requires IsAsciiLetter(unit)
    ensures TermSeconds(ConfigurationProcessing.ShowInt(count) + [unit] + "s")
      == TermSeconds(ConfigurationProcessing.ShowInt(count) + [unit])
  {
    var w := ConfigurationProcessing.ShowInt(count);
    var s := w + [unit] + "s";
    ShownIntDigits(count);
    assert s[..|s| - 1] == w + [unit];
    assert s[|s| - 3] == w[|w| - 1] && s[|s| - 2] == unit && s[|s| - 1] == 's';
    TermSecondsPlural(s);
  }

  /** A term ending in a letter and 's', where the letter does not itself
      follow a letter as a plural 's', is the term without the final 's'. */
  lemma {:induction false} TermSecondsPlural(s: string)
    requires |s| >= 3 && IsAsciiLetter(s[|s| - 2]) && s[|s| - 1] == 's'
    requires !(IsAsciiLetter(s[|s| - 3]) && s[|s| - 2] == 's')
    ensures TermSeconds(s) == TermSeconds(s[..|s| - 1])
  {
    var t := s[..|s| - 1];
    assert DropPlural(s) == t;
    assert t[|t| - 2] == s[|s| - 3] && t[|t| - 1] == s[|s| - 2];
    assert DropPlural(t) == t;
  }

  /** On a string without spaces that splits into two terms at '+',
      `time_string_to_float` sums the two terms. */
  lemma {:induction false} TimeTextOfTwo(u: string, a: string, b: string)
    requires Lacks(u, ' ') && Contains(u, "+") && Split(u, "+") == [a, b]
    ensures TimeText(u) == SumResults([TimeTerm(a), TimeTerm(b)])
  {
    RemoveSpacesNone(u);
    assert TimeTerms([a, b]) == [TimeTerm(a), TimeTerm(b)];
  }

  /** Joining around a character other than `x` keeps `x` out. */
  lemma {:induction false} LacksJoin(a: string, c: char, b: string, x: char)
    requires Lacks(a, x) && Lacks(b, x) && c != x
    ensures Lacks(a + [c] + b, x)
  {
    var u := a + [c] + b;
    forall i | 0 <= i < |u|
      ensures u[i] != x
    {
      if i < |a| {
        assert u[i] == a[i];
      } else if i > |a| {
        assert u[i] == b[i - |a| - 1];
      }
    }
  }

  /** Two terms without spaces or '+', joined by '+', split back into
      the two terms. */
  lemma {:induction false} PlusSplit(a: string, b: string)
    requires Lacks(a, ' ') && Lacks(a, '+') && Lacks(b, ' ') && Lacks(b, '+')
    ensures var u := a + "+" + b;
      Lacks(u, ' ') && Contains(u, "+") && Split(u, "+") == [a, b]
  {
    var u := a + "+" + b;
    LacksJoin(a, '+', b, ' ');
    assert OccursAt(u, "+", |a|);
    SplitAtChar(a, '+', b);
  }

  /** Two terms joined by '+' are summed: the result is the sum of the
      two terms when both are valid, and otherwise the first term's error,
      then the second's. */
  lemma {:induction false} TimeTextSum(a: string, b: string)
    requires Lacks(a, ' ') && Lacks(a, '+') && Lacks(b, ' ') && Lacks(b, '+')
    ensures TimeText(a + "+" + b) == SumResults([TimeTerm(a), TimeTerm(b)])
  {
    PlusSplit(a, b);
    TimeTextOfTwo(a + "+" + b, a, b);
  }

  /** The sum of two valid terms is their sum; otherwise the first failure
      is raised. */
  lemma {:induction false} SumOfTwo(x: Result<real>, y: Result<real>)
    ensures x.Success? && y.Success? ==> SumResults([x, y]) == Success(x.value + y.value)
    ensures x.Failure? ==> SumResults([x, y]) == Failure(x.error)
    ensures x.Success? && y.Failure? ==> SumResults([x, y]) == Failure(y.error)
  {
    var none: seq<Result<real>> := [];
    assert SumResults(none) == Success(0.0);
    assert [y][1..] == none;
    if y.Success? {
      assert SumResults([y]) == Success(y.value + 0.0);
    }
    assert [x, y][1..] == [y];
  }

  // ---------------------------------------------------------------------
  // `parse_selection`: tokenising

  /** One item of a selection list: a ready comparison (a tuple) or an
      expression string. */
  datatype Expr = TupleExpr(key: string, op: string, value: DbValue) | TextExpr(text: string)

  /** The `selection` argument: None, an id, a list, or a string. */
  datatype Selection = NoSelection | IdSelection(id: int) | ListSelection(items: seq<Expr>) | TextSelection(text: string)

  /** A comparison before the special keys are rewritten. */
  datatype Comparison = Comparison(key: string, op: string, value: DbValue)

  /** The bare keys and the comparisons of a selection. */
  datatype Tokens = Tokens(keys: seq<string>, comparisons: seq<Comparison>)

  /** The expressions of a selection; a string is cut at commas and each
      piece is stripped of surrounding whitespace. */
  function Expressions(selection: Selection): (r: seq<Expr>)
    ensures selection.NoSelection? || selection == TextSelection("") ==> r == []
    ensures selection.IdSelection? ==> r == [TupleExpr("id", "=", IntV(selection.id))]
    ensures selection.ListSelection? ==> r == selection.items
    ensures selection.TextSelection? && selection.text != "" ==>
      |r| == |Split(selection.text, ",")| && forall k :: 0 <= k < |r| ==> r[k].TextExpr?
  {
    match selection
    case NoSelection => []
    case IdSelection(n) => [TupleExpr("id", "=", IntV(n))]
    case ListSelection(items) => items
    case TextSelection(text) =>
      if text == "" then []
      else
        var pieces := Split(text, ",");
        seq(|pieces|, k requires 0 <= k < |pieces| => TextExpr(ConfigurationProcessing.Strip(pieces[k])))
  }

  /** A nonempty selection string yields one expression per comma-separated
      piece, in order: the pieces hold no comma, joined again with commas
      they are the string, and each expression is its piece without the
      surrounding whitespace. */
  lemma {:induction false} TextExpressions(text: string)
    requires text != ""
    ensures var r := Expressions(TextSelection(text)); var pieces := Split(text, ",");
      && Join(pieces, ",") == text
      && |r| == |pieces|
      && forall k :: 0 <= k < |r| ==>
        && !Contains(pieces[k], ",")
        && r[k] == TextExpr(ConfigurationProcessing.Strip(pieces[k]))
        && var t := r[k].text; |t| > 0 ==> !ConfigurationProcessing.IsSpace(t[0]) && !ConfigurationProcessing.IsSpace(t[|t| - 1])
  {
    JoinSplit(text, ",");
    var r := Expressions(TextSelection(text));
    var pieces := Split(text, ",");
    forall k | 0 <= k < |r|
      ensures var t := r[k].text; |t| > 0 ==> !ConfigurationProcessing.IsSpace(t[0]) && !ConfigurationProcessing.IsSpace(t[|t| - 1])
    {
      StripBothEnds(pieces[k]);
    }
  }

  /** `s.strip()` starts and ends with a character that is not whitespace. */
  lemma {:induction false} StripBothEnds(s: string)
    ensures var t := ConfigurationProcessing.Strip(s);
      |t| > 0 ==> !ConfigurationProcessing.IsSpace(t[0]) && !ConfigurationProcessing.IsSpace(t[|t| - 1])
  {
    var l := ConfigurationProcessing.StripLeft(s);
    var t := ConfigurationProcessing.StripRight(l);
    if |t| > 0 {
      assert t[0] == l[0];
    }
  }

  /** The operators in the order `parse_selection` tries them. */
  const SearchOrder: seq<string> := ["!=", "<=", ">=", "<", ">", "="]

  /** The first candidate that occurs in `e`. */
  function FirstContained(e: string, candidates: seq<string>): (r: Option<string>)
    ensures r.None? <==> forall k :: 0 <= k < |candidates| ==> !Contains(e, candidates[k])
    ensures r.Some? ==> exists k :: (0 <= k < |candidates| && candidates[k] == r.value && Contains(e, r.value)
      && forall j :: 0 <= j < k ==> !Contains(e, candidates[j]))
  {
    if |candidates| == 0 then None
    else if Contains(e, candidates[0]) then Some(candidates[0])
    else
      var r := FirstContained(e, candidates[1..]);
      assert forall k :: 1 <= k < |candidates| ==> candidates[1..][k - 1] == candidates[k];
      if r.Some? then
        var k :| 0 <= k < |candidates[1..]| && candidates[1..][k] == r.value && Contains(e, r.value)
          && forall j :: 0 <= j < k ==> !Contains(e, candidates[1..][j]);
        assert candidates[k + 1] == r.value;
        r
      else r
  }

  /** `s.split(sep, 1)[0]`: the part before the first occurrence. */
  function Before(s: string, sep: string): (r: string)
    ensures r <= s
  {
    match Find(s, sep)
    case None => s
    case Some(i) => s[..i]
  }

  /** The comparison an expression without a chained lower bound gives:
      the first operator found splits it into key and value (more than one
      occurrence of that operator cannot be unpacked); with no operator it
      is an element symbol, meaning "at least one such atom", or a bare
      key. */
  function OperatorTokens(e: string, elements: set<string>): (r: Result<Tokens>)
    ensures FirstContained(e, SearchOrder).None? && e in elements ==>
      r == Success(Tokens([], [Comparison(e, ">", IntV(0))]))
    ensures FirstContained(e, SearchOrder).None? && e !in elements ==> r == Success(Tokens([e], []))
    ensures r.Success? && FirstContained(e, SearchOrder).Some? ==>
      var op := FirstContained(e, SearchOrder).value;
      r.value.keys == [] && |r.value.comparisons| == 1
      && var c := r.value.comparisons[0];
      c.op == op && c.value.StrV? && c.key + op + c.value.s == e
    ensures r.Failure? ==> r.error.ValueError?
  {
    match FirstContained(e, SearchOrder)
    case None => if e in elements then Success(Tokens([], [Comparison(e, ">", IntV(0))])) else Success(Tokens([e], []))
    case Some(op) =>
      assert op in SearchOrder;
      var parts := Split(e, op);
      if |parts| != 2 then Failure(ValueError("too many values to unpack"))
      else
        JoinSplit(e, op);
        assert parts[1..] == [parts[1]];
        Success(Tokens([], [Comparison(parts[0], op, StrV(parts[1]))]))
  }

  /** The lower bound of a chained comparison 'a<key<b' or 'a<=key<b', and
      the expression left after it: 'key<b'. */
  function ChainedLower(e: string): (r: Result<(Comparison, string)>)
    requires Contains(e, "<")
    ensures r.Failure? ==> r.error == IndexError
  {
    var (value, rest) := SplitOnce(e, "<");
    if |rest| == 0 then Failure(IndexError)
    else
      var op := if rest[0] == '=' then ">=" else ">";
      var remaining := if rest[0] == '=' then rest[1..] else rest;
      Success((Comparison(Before(remaining, "<"), op, StrV(value)), remaining))
  }

  /** One expression string: exactly two '<' make a chained comparison,
      whose lower bound comes first; the operator search then runs on what
      is left. */
  function TextTokens(e: string, elements: set<string>): (r: Result<Tokens>)
    ensures CountChar(e, '<') != 2 ==> r == OperatorTokens(e, elements)
  {
    if CountChar(e, '<') == 2 then
      CountCharContains(e, '<');
      ChainedTokens(e, elements)
    else OperatorTokens(e, elements)
  }

  /** Exactly two '<' select the chained comparison. */
  lemma {:induction false} TwoLessThan(e: string, elements: set<string>)
    requires CountChar(e, '<') == 2
    ensures Contains(e, "<") && TextTokens(e, elements) == ChainedTokens(e, elements)
  {
    CountCharContains(e, '<');
  }

  /** A chained comparison: its lower bound, then the tokens of the rest. */
  function ChainedTokens(e: string, elements: set<string>): (r: Result<Tokens>)
    requires Contains(e, "<")
    ensures ChainedLower(e).Failure? ==> r == Failure(IndexError)
    ensures r.Success? ==> |r.value.comparisons| >= 1 && r.value.comparisons[0] == ChainedLower(e).value.0
  {
    var chained :- ChainedLower(e);
    var t :- OperatorTokens(chained.1, elements);
    Success(Tokens(t.keys, [chained.0] + t.comparisons))
  }

  /** The keys and comparisons of all expressions, in order. */
  function Tokenise(exprs: seq<Expr>, elements: set<string>): Result<Tokens>
  {
    if |exprs| == 0 then Success(Tokens([], []))
    else
      var first :- match exprs[0]
        case TupleExpr(key, op, value) => Success(Tokens([], [Comparison(key, op, value)]))
        case TextExpr(text) => TextTokens(text, elements);
      var rest :- Tokenise(exprs[1..], elements);
      Success(Tokens(first.keys + rest.keys, first.comparisons + rest.comparisons))
  }

  /** The characters operators are made of. */
  predicate IsOpChar(c: char) { c == '!' || c == '<' || c == '=' || c == '>' }

  predicate NoOpChars(s: string)
  {
    forall i :: 0 <= i < |s| ==> !IsOpChar(s[i])
  }

  predicate AllOpChars(s: string)
  {
    forall i :: 0 <= i < |s| ==> IsOpChar(s[i])
  }

  /** In `k + sym + v` with no operator characters in `k` and `v`, a
      string of operator characters can only occur inside `sym`. */
  lemma {:induction false} OccursInsideOperator(k: string, sym: string, v: string, x: string, i: int)
    requires NoOpChars(k) && NoOpChars(v) && |x| > 0 && AllOpChars(x)
    requires OccursAt(k + sym + v, x, i)
    ensures |k| <= i && i + |x| <= |k| + |sym|
    ensures OccursAt(sym, x, i - |k|)
  {
    var e := k + sym + v;
    assert e[i] == e[i..i + |x|][0] == x[0];
    var last := i + |x| - 1;
    assert e[last] == e[i..i + |x|][|x| - 1] == x[|x| - 1];
    assert e[i..i + |x|] == sym[i - |k|..i - |k| + |x|];
  }

  /** So such a string occurs in `k + sym + v` exactly when it occurs in
      `sym`. */
  lemma {:induction false} ContainsInsideOperator(k: string, sym: string, v: string, x: string)
    requires NoOpChars(k) && NoOpChars(v) && |x| > 0 && AllOpChars(x)
    ensures Contains(k + sym + v, x) <==> Contains(sym, x)
  {
    var e := k + sym + v;
    if Contains(e, x) {
      var i :| 0 <= i <= |e| && OccursAt(e, x, i);
      OccursInsideOperator(k, sym, v, x, i);
    }
    if Contains(sym, x) {
      var j :| 0 <= j <= |sym| && OccursAt(sym, x, j);
      assert e[|k| + j..|k| + j + |x|] == sym[j..j + |x|];
      assert OccursAt(e, x, |k| + j);
    }
  }

  /** The operator search only looks at which candidates occur. */
  lemma {:induction false} FirstContainedSame(e1: string, e2: string, candidates: seq<string>)
    requires forall k :: 0 <= k < |candidates| ==> (Contains(e1, candidates[k]) <==> Contains(e2, candidates[k]))
    ensures FirstContained(e1, candidates) == FirstContained(e2, candidates)
    decreases |candidates|
  {
    if |candidates| > 0 {
      assert forall k :: 1 <= k < |candidates| ==> candidates[1..][k - 1] == candidates[k];
      FirstContainedSame(e1, e2, candidates[1..]);
    }
  }

  /** Every operator is found as itself: an operator that the search tries
      earlier never occurs inside a later one. */
  lemma {:induction false} SearchFindsSymbol(op: Op)
    ensures FirstContained(Symbol(op), SearchOrder) == Some(Symbol(op))
  {
    var sym := Symbol(op);
    assert Contains(sym, sym) by { assert OccursAt(sym, sym, 0); }
    var i := match op
      case Ne => 0 case Le => 1 case Ge => 2 case Lt => 3 case Gt => 4 case Eq => 5;
    assert SearchOrder[i] == sym;
    forall j | 0 <= j < i
      ensures !Contains(sym, SearchOrder[j])
    {
      NotContained(sym, SearchOrder[j]);
    }
    FirstContainedAt(sym, SearchOrder, i);
  }

  /** A string does not contain a longer one, nor a different one of the
      same length. */
  lemma {:induction false} NotContained(e: string, x: string)
    requires |x| > |e| || (|x| == |e| && x != e)
    ensures !Contains(e, x)
  {
    if |x| == |e| {
      assert e[0..|x|] == e;
    }
  }

  /** The search stops at the first candidate that occurs. */
  lemma {:induction false} FirstContainedAt(e: string, candidates: seq<string>, i: nat)
    requires i < |candidates| && Contains(e, candidates[i])
    requires forall j :: 0 <= j < i ==> !Contains(e, candidates[j])
    ensures FirstContained(e, candidates) == Some(candidates[i])
    decreases i
  {
    if i > 0 {
      assert candidates[1..][i - 1] == candidates[i];
      assert forall j :: 0 <= j < i - 1 ==> candidates[1..][j] == candidates[j + 1];
      FirstContainedAt(e, candidates[1..], i - 1);
    }
  }

  /** Without operator characters there is no operator. */
  lemma {:induction false} NoOperatorInside(v: string, x: string)
    requires NoOpChars(v) && |x| > 0 && AllOpChars(x)
    ensures !Contains(v, x)
  {
    forall j | 0 <= j <= |v|
      ensures !OccursAt(v, x, j)
    {
      if j + |x| <= |v| {
        assert v[j..j + |x|][0] == v[j];
      }
    }
  }

  /** An operator surrounded by operands without operator characters
      splits into the two operands. */
  lemma {:induction false} SplitAroundOperator(k: string, sym: string, v: string)
    requires NoOpChars(k) && NoOpChars(v) && |sym| > 0 && AllOpChars(sym)
    ensures Split(k + sym + v, sym) == [k, v]
  {
    var e := k + sym + v;
    assert OccursAt(e, sym, |k|) by {
      assert e[|k|..|k| + |sym|] == sym;
    }
    var i := Find(e, sym).value;
    assert i == |k| by {
      OccursInsideOperator(k, sym, v, sym, i);
    }
    assert e[..|k|] == k && e[|k| + |sym|..] == v;
    SplitAtFound(e, sym, i);
    assert Split(v, sym) == [v] by {
      NoOperatorInside(v, sym);
    }
    assert [k] + [v] == [k, v];
  }

  /** `split` at the first occurrence found. */
  lemma {:induction false} SplitAtFound(s: string, sep: string, i: nat)
    requires |sep| > 0 && Find(s, sep) == Some(i)
    ensures Split(s, sep) == [s[..i]] + Split(s[i + |sep|..], sep)
  {
  }

  lemma {:induction false} CountCharAppend(a: string, b: string, c: char)
    ensures CountChar(a + b, c) == CountChar(a, c) + CountChar(b, c)
    decreases |a|
  {
    if |a| > 0 {
      CountCharAppend(a[1..], b, c);
      assert (a + b)[1..] == a[1..] + b;
    } else {
      assert a + b == b;
    }
  }

  lemma {:induction false} CountCharNoOp(s: string)
    requires NoOpChars(s)
    ensures CountChar(s, '<') == 0
    decreases |s|
  {
    if |s| > 0 {
      CountCharNoOp(s[1..]);
    }
  }

  /** Every operator of the search order is made of operator characters. */
  lemma {:induction false} SearchOrderIsOperators()
    ensures forall k :: 0 <= k < |SearchOrder| ==> |SearchOrder[k]| > 0 && AllOpChars(SearchOrder[k])
  {
  }

  /** 'key<op>value' with operands free of operator characters gives the
      one comparison (key, op, value), for each of the six operators. */
  lemma {:induction false} OperatorTokensSingle(k: string, op: Op, v: string, elements: set<string>)
    requires NoOpChars(k) && NoOpChars(v)
    ensures OperatorTokens(k + Symbol(op) + v, elements) == Success(Tokens([], [Comparison(k, Symbol(op), StrV(v))]))
  {
    var sym := Symbol(op);
    var e := k + sym + v;
    assert FirstContained(e, SearchOrder) == Some(sym) by {
      SearchOrderIsOperators();
      forall j | 0 <= j < |SearchOrder|
        ensures Contains(e, SearchOrder[j]) <==> Contains(sym, SearchOrder[j])
      {
        ContainsInsideOperator(k, sym, v, SearchOrder[j]);
      }
      FirstContainedSame(e, sym, SearchOrder);
      SearchFindsSymbol(op);
    }
    assert Split(e, sym) == [k, v] by {
      SearchFindsSymbol(op);
      SearchOrderIsOperators();
      SplitAroundOperator(k, sym, v);
    }
    OperatorTokensOfSplit(e, sym, k, v, elements);
  }

  /** An expression that the first operator found splits in two gives the
      one comparison between the two sides. */
  lemma {:induction false} OperatorTokensOfSplit(e: string, op: string, key: string, value: string, elements: set<string>)
    requires FirstContained(e, SearchOrder) == Some(op) && Split(e, op) == [key, value]
    ensures OperatorTokens(e, elements) == Success(Tokens([], [Comparison(key, op, StrV(value))]))
  {
  }

  /** The same through the chained-comparison check: such an expression
      has at most one '<'. */
  lemma {:induction false} SingleComparison(k: string, op: Op, v: string, elements: set<string>)
    requires NoOpChars(k) && NoOpChars(v)
    ensures TextTokens(k + Symbol(op) + v, elements) == Success(Tokens([], [Comparison(k, Symbol(op), StrV(v))]))
  {
    var sym := Symbol(op);
    CountCharAppend(k + sym, v, '<');
    CountCharAppend(k, sym, '<');
    CountCharNoOp(k);
    CountCharNoOp(v);
    OperatorTokensSingle(k, op, v, elements);
  }

  /** The expression 'lo<key<hi' or 'lo<=key<hi'. */
  function Chained(lo: string, k: string, hi: string, inclusive: bool): string
  {
    lo + (if inclusive then "<=" else "<") + k + "<" + hi
  }

  /** Such an expression has exactly two '<'. */
  lemma {:induction false} ChainedCount(lo: string, k: string, hi: string, inclusive: bool)
    requires NoOpChars(lo) && NoOpChars(k) && NoOpChars(hi)
    ensures CountChar(Chained(lo, k, hi, inclusive), '<') == 2
  {
    var lower := if inclusive then "<=" else "<";
    CountCharAppend(lo + lower + k + "<", hi, '<');
    CountCharAppend(lo + lower + k, "<", '<');
    CountCharAppend(lo + lower, k, '<');
    CountCharAppend(lo, lower, '<');
    CountCharNoOp(lo);
    CountCharNoOp(k);
    CountCharNoOp(hi);
  }

  /** Its lower bound, and the 'key<hi' left after it. */
  lemma {:induction false} ChainedLowerOf(lo: string, k: string, hi: string, inclusive: bool)
    requires NoOpChars(lo) && NoOpChars(k) && NoOpChars(hi) && |k| > 0
    ensures Contains(Chained(lo, k, hi, inclusive), "<")
    ensures ChainedLower(Chained(lo, k, hi, inclusive))
      == Success((Comparison(k, if inclusive then ">=" else ">", StrV(lo)), k + "<" + hi))
  {
    var e := Chained(lo, k, hi, inclusive);
    var upper := k + "<" + hi;
    var rest := if inclusive then "=" + upper else upper;
    assert e == lo + "<" + rest;
    LowerSplit(lo, rest);
    BeforeLess(k, hi);
    assert |rest| > 0 && (if rest[0] == '=' then rest[1..] else rest) == upper && (rest[0] == '=' <==> inclusive) by {
      if inclusive {
        assert rest[0] == '=' && rest[1..] == upper;
      } else {
        assert rest[0] == k[0];
      }
    }
    ChainedLowerStep(e, lo, rest, upper, k);
  }

  /** The first '<' of 'lo<rest' is the one after lo. */
  lemma {:induction false} LowerSplit(lo: string, rest: string)
    requires NoOpChars(lo)
    ensures Contains(lo + "<" + rest, "<") && SplitOnce(lo + "<" + rest, "<") == (lo, rest)
  {
    assert Lacks(lo, '<');
    SplitOnceAtChar(lo, '<', rest);
  }

  /** What precedes the first '<' of 'k<hi' is k. */
  lemma {:induction false} BeforeLess(k: string, hi: string)
    requires NoOpChars(k)
    ensures Before(k + "<" + hi, "<") == k
  {
    assert Lacks(k, '<');
    FindChar(k, '<', hi);
    assert (k + "<" + hi)[..|k|] == k;
  }

  /** `ChainedLower` once the split at the first '<' is known. */
  lemma {:induction false} ChainedLowerStep(e: string, value: string, rest: string, upper: string, k: string)
    requires Contains(e, "<") && SplitOnce(e, "<") == (value, rest) && |rest| > 0
    requires (if rest[0] == '=' then rest[1..] else rest) == upper && Before(upper, "<") == k
    ensures ChainedLower(e) == Success((Comparison(k, if rest[0] == '=' then ">=" else ">", StrV(value)), upper))
  {
  }

  /** 'lo<key<hi' and 'lo<=key<hi' give the lower bound ('>' or '>=') and
      then the upper bound ('<'). */
  lemma {:induction false} ChainedComparison(lo: string, k: string, hi: string, inclusive: bool, elements: set<string>)
    requires NoOpChars(lo) && NoOpChars(k) && NoOpChars(hi) && |k| > 0
    ensures TextTokens(Chained(lo, k, hi, inclusive), elements)
      == Success(Tokens([], [Comparison(k, if inclusive then ">=" else ">", StrV(lo)), Comparison(k, "<", StrV(hi))]))
  {
    var e := Chained(lo, k, hi, inclusive);
    var lower := Comparison(k, if inclusive then ">=" else ">", StrV(lo));
    var upper := Comparison(k, "<", StrV(hi));
    assert CountChar(e, '<') == 2 by {
      ChainedCount(lo, k, hi, inclusive);
    }
    assert Contains(e, "<") && ChainedLower(e) == Success((lower, k + "<" + hi)) by {
      ChainedLowerOf(lo, k, hi, inclusive);
    }
    assert OperatorTokens(k + "<" + hi, elements) == Success(Tokens([], [upper])) by {
      OperatorTokensSingle(k, Lt, hi, elements);
    }
    ChainedTokensOf(e, lower, k + "<" + hi, upper, elements);
    TwoLessThan(e, elements);
  }

  /** A chained expression whose lower bound leaves a single comparison
      gives the two comparisons. */
  lemma {:induction false} ChainedTokensOf(e: string, lower: Comparison, rest: string, upper: Comparison, elements: set<string>)
    requires Contains(e, "<") && ChainedLower(e) == Success((lower, rest))
    requires OperatorTokens(rest, elements) == Success(Tokens([], [upper]))
    ensures ChainedTokens(e, elements) == Success(Tokens([], [lower, upper]))
  {
    assert [lower] + [upper] == [lower, upper];
  }

  // ---------------------------------------------------------------------
  // `parse_selection`: the special keys

  /** A comparison key after rewriting: a column name or an atomic number. */
  datatype Key = Named(name: string) | AtomicNumber(z: int)

  datatype Cmp = Cmp(key: Key, op: string, value: DbValue)

  /** What `parse_selection` takes from outside: the current time in
      years since 2000 (`now()`), the `atomic_numbers` table, the formula
      parser `symbols2numbers`, and `float()` on strings (`None` where it
      raises ValueError). */
  datatype Lookups = Lookups(
    now: real,
    atomicNumbers: map<string, int>,
    symbolsToNumbers: DbValue -> Result<seq<int>>,
    parseFloat: string -> Option<real>)

  const NumericKeys: set<string> := {"id", "energy", "magmom", "charge", "natoms"}

  /** An `int` or a `float` (`bool` is an `int`). */
  predicate IsNumber(v: DbValue) { v.IntV? || v.FloatV? || v.BoolV? }

  /** `convert_str_to_float_or_str`: a float if `float()` accepts the
      string, 1.0 and 0.0 for 'True' and 'False', the string otherwise. */
  function ConvertText(s: string, parseFloat: string -> Option<real>): (v: DbValue)
    ensures v.FloatV? || v == StrV(s)
    ensures parseFloat(s).Some? ==> v == FloatV(parseFloat(s).value)
    ensures parseFloat(s).None? && (s == "True" || s == "False") ==> v == FloatV(if s == "True" then 1.0 else 0.0)
    ensures parseFloat(s).None? && s != "True" && s != "False" ==> v == StrV(s)
  {
    match parseFloat(s)
    case Some(x) => FloatV(x)
    case None => if s == "True" then FloatV(1.0) else if s == "False" then FloatV(0.0) else StrV(s)
  }

  /** `int(v)`: floats are truncated toward zero, strings parsed, and
      `None` or other objects refused. */
  function PyInt(v: DbValue): (r: Result<int>)
    ensures v.IntV? ==> r == Success(v.i)
    ensures v.FloatV? && v.x >= 0.0 ==> r.Success? && 0 <= r.value && (r.value as real) <= v.x < (r.value + 1) as real
    ensures v.FloatV? && v.x < 0.0 ==> r.Success? && r.value <= 0 && ((r.value - 1) as real) < v.x <= (r.value as real)
    ensures v.BoolV? ==> r == Success(if v.b then 1 else 0)
    ensures v.StrV? ==> r == ConfigurationProcessing.ParseInt(v.s)
    ensures v.NoneV? || v.OtherV? ==> r == Failure(TypeError)
  {
    match v
    case IntV(n) => Success(n)
    case BoolV(b) => Success(if b then 1 else 0)
    case FloatV(x) => Success(if x >= 0.0 then x.Floor else -((-x).Floor))
    case StrV(s) => ConfigurationProcessing.ParseInt(s)
    case _ => Failure(TypeError)
  }

  /** The entries of a count table. */
  predicate InTable(t: seq<(int, nat)>, z: int)
  {
    exists i :: 0 <= i < |t| && t[i].0 == z
  }

  /** No atomic number has two entries. */
  predicate DistinctKeys(t: seq<(int, nat)>)
  {
    forall i, j :: 0 <= i < j < |t| ==> t[i].0 != t[j].0
  }

  /** The count the table gives z, 0 when z has no entry. */
  function CountOf(t: seq<(int, nat)>, z: int): nat
  {
    if |t| == 0 then 0 else if t[0].0 == z then t[0].1 else CountOf(t[1..], z)
  }

  /** The sum of the counts. */
  function TallyTotal(t: seq<(int, nat)>): nat
  {
    if |t| == 0 then 0 else t[0].1 + TallyTotal(t[1..])
  }

  /** A table has an entry for y when its head is for y or its tail has one. */
  lemma {:induction false} InTableHead(t: seq<(int, nat)>, y: int)
    requires |t| > 0
    ensures InTable(t, y) <==> t[0].0 == y || InTable(t[1..], y)
  {
    if InTable(t, y) && t[0].0 != y {
      var i :| 0 <= i < |t| && t[i].0 == y;
      assert t[1..][i - 1].0 == y;
    }
    if InTable(t[1..], y) {
      var i :| 0 <= i < |t[1..]| && t[1..][i].0 == y;
      assert t[i + 1].0 == y;
    }
  }

  /** The keys of a table are distinct when the head key does not recur and
      the keys of the tail are distinct. */
  lemma {:induction false} DistinctKeysHead(t: seq<(int, nat)>)
    requires |t| > 0
    ensures DistinctKeys(t) <==> !InTable(t[1..], t[0].0) && DistinctKeys(t[1..])
  {
    var tail := t[1..];
    if DistinctKeys(t) {
      forall i | 0 <= i < |tail| ensures tail[i].0 != t[0].0 {
        assert tail[i] == t[i + 1];
      }
      forall i, j | 0 <= i < j < |tail| ensures tail[i].0 != tail[j].0 {
        assert tail[i] == t[i + 1] && tail[j] == t[j + 1];
      }
    }
    if !InTable(tail, t[0].0) && DistinctKeys(tail) {
      forall i, j | 0 <= i < j < |t| ensures t[i].0 != t[j].0 {
        if i == 0 {
          assert tail[j - 1] == t[j];
        } else {
          assert tail[i - 1] == t[i] && tail[j - 1] == t[j];
        }
      }
    }
  }

  /** `count[z] += 1` on the table: the count of z goes up by one, an entry
      (z, 1) is added at the end when z had none, nothing else changes. */
  function Bump(t: seq<(int, nat)>, z: int): (r: seq<(int, nat)>)
    requires DistinctKeys(t)
    ensures DistinctKeys(r)
    ensures forall y :: InTable(r, y) <==> y == z || InTable(t, y)
    ensures forall y :: CountOf(r, y) == CountOf(t, y) + (if y == z then 1 else 0)
    ensures TallyTotal(r) == TallyTotal(t) + 1
    ensures |t| > 0 ==> |r| > 0 && r[0].0 == t[0].0
  {
    if |t| == 0 then
      assert InTable([(z, 1)], z) by { assert [(z, 1)][0].0 == z; }
      [(z, 1)]
    else
      DistinctKeysHead(t);
      if t[0].0 == z then
        var r := [(z, t[0].1 + 1)] + t[1..];
        assert r[1..] == t[1..];
        DistinctKeysHead(r);
        forall y ensures InTable(r, y) <==> y == z || InTable(t, y) {
          InTableHead(r, y);
          InTableHead(t, y);
        }
        r
      else
        var rest := Bump(t[1..], z);
        var r := [t[0]] + rest;
        assert r[1..] == rest;
        forall y ensures InTable(r, y) <==> y == z || InTable(t, y) {
          InTableHead(r, y);
          InTableHead(t, y);
        }
        DistinctKeysHead(r);
        r
  }

  /** The element counts of a formula (`collections.defaultdict(int)`):
      each atomic number once, with how often it occurs. The model lists
      the entries in order of first occurrence. */
  function Tally(numbers: seq<int>): (t: seq<(int, nat)>)
    ensures DistinctKeys(t)
    ensures forall z :: InTable(t, z) <==> z in numbers
    ensures forall z :: CountOf(t, z) == multiset(numbers)[z]
    ensures TallyTotal(t) == |numbers|
    ensures |numbers| > 0 ==> |t| > 0 && t[0].0 == numbers[0]
    decreases |numbers|
  {
    if |numbers| == 0 then []
    else
      var init := numbers[..|numbers| - 1];
      var z := numbers[|numbers| - 1];
      assert numbers == init + [z];
      Bump(Tally(init), z)
  }

  // ---------------------------------------------------------------------
  // `parse_selection`: the 'age' key

  /** The operator with its operands swapped: `a op b` is `b op' a`. */
  function Converse(op: Op): Op
  {
    match op
    case Lt => Gt
    case Le => Ge
    case Ge => Le
    case Gt => Lt
    case Eq => Eq
    case Ne => Ne
  }

  lemma {:induction false} ConverseSwaps(op: Op, a: real, b: real)
    ensures Holds(Converse(op), a, b) <==> Holds(op, b, a)
    ensures Converse(Converse(op)) == op
  {
  }

  /** A condition on the creation time is a condition on the age at time
      `now`: `ctime op (now - t)` holds exactly when `age op' t` does for
      the converse operator. */
  lemma {:induction false} CreationTimeIsAge(op: Op, now: real, ctime: real, t: real)
    ensures Holds(op, ctime, now - t) <==> Holds(Converse(op), now - ctime, t)
  {
  }

  /** The 'age' comparison as `parse_selection` rewrites it: the key becomes
      'ctime', the operator goes through `invop` (KeyError for a string that
      is not an operator), and the value becomes `now - t` for the time t
      the value stands for. */
  function AgeComparisonAsWritten(op: string, value: DbValue, now: real): (r: Result<Cmp>)
    ensures ParseOp(op).None? ==> r == Failure(KeyError(op))
    ensures ParseOp(op).Some? && TimeValue(value).Failure? ==> r == Failure(TimeValue(value).error)
    ensures r.Success? <==> ParseOp(op).Some? && TimeValue(value).Success?
    ensures r.Success? ==>
      r.value.key == Named("ctime") && r.value.value == FloatV(now - TimeValue(value).value)
      && ParseOp(r.value.op) == Some(Invop(ParseOp(op).value))
  {
    var inverse :- InvopLookup(op);
    var t :- TimeValue(value);
    Success(Cmp(Named("ctime"), inverse, FloatV(now - t)))
  }

  /** The row test the rewritten comparison `c` makes on a real column value. */
  predicate Passes(c: Cmp, column: real)
    requires ParseOp(c.op).Some? && c.value.FloatV?
  {
    Holds(ParseOp(c.op).value, column, c.value.x)
  }

  /** With `invop`, 'age op t' selects exactly the rows whose age does NOT
      stand in the converse relation to t: 'age=1d' selects every row whose
      age is not one day, and 'age<1d' the rows at most one day old. */
  lemma {:induction false} AgeAsWrittenSelects(op: string, value: DbValue, now: real, ctime: real)
    requires AgeComparisonAsWritten(op, value, now).Success?
    ensures var c := AgeComparisonAsWritten(op, value, now).value;
      Passes(c, ctime) <==> !Holds(Converse(ParseOp(op).value), now - ctime, TimeValue(value).value)
  {
    var o := ParseOp(op).value;
    var t := TimeValue(value).value;
    InvopNegates(o, ctime, now - t);
    CreationTimeIsAge(o, now, ctime, t);
  }

  /** A row created exactly one day before `now` is not selected by
      'age=1d' as written. */
  lemma {:induction false} AgeAsWrittenMissesEqualAge()
    ensures var c := AgeComparisonAsWritten("=", StrV("1d"), 10.0);
      c.Success? && !Passes(c.value, 10.0 - 1.0 / 365.25)
  {
    OneDay();
    InvopOfEquals();
  }

  /** '1d' is 1 / 365.25 years. */
  lemma {:induction false} OneDay()
    ensures TimeValue(StrV("1d")) == Success(1.0 / 365.25)
  {
    OneDayIsOneTerm();
    OneDaySeconds();
    assert 86400 as real / Year == 1.0 / 365.25;
  }

  /** '1d' has no spaces and no '+': it is a single term. */
  lemma {:induction false} OneDayIsOneTerm()
    ensures TimeValue(StrV("1d")) == TimeTerm("1d")
  {
    assert ConfigurationProcessing.RemoveSpaces("1d") == "1d";
    assert !Contains("1d", "+") by { LacksIffNotContains("1d", '+'); }
  }

  /** The term '1d' is 86400 seconds. */
  lemma {:induction false} OneDaySeconds()
    ensures TermSeconds("1d") == Success(86400)
  {
    var w := ConfigurationProcessing.ShowInt(1) + ['d'];
    assert w == "1d";
    assert TermSeconds(w) == Success(86400) by {
      assert UnitSeconds(['d']) == Success(86400);
      TimeTermOfCount(1, 'd');
    }
  }

  /** `invop['=']` is '!='. */
  lemma {:induction false} InvopOfEquals()
    ensures InvopLookup("=") == Success("!=") && ParseOp("!=") == Some(Ne)
  {
    assert ParseOp("=") == Some(Eq);
  }

  /** The 'age' comparison with the operator replaced by its converse, which
      the rest of the model uses. */
  function AgeComparison(op: string, value: DbValue, now: real): (r: Result<Cmp>)
    ensures ParseOp(op).None? ==> r == Failure(KeyError(op))
    ensures ParseOp(op).Some? && TimeValue(value).Failure? ==> r == Failure(TimeValue(value).error)
    ensures r.Success? <==> ParseOp(op).Some? && TimeValue(value).Success?
    ensures r.Success? ==>
      r.value.key == Named("ctime") && r.value.value == FloatV(now - TimeValue(value).value)
      && ParseOp(r.value.op) == Some(Converse(ParseOp(op).value))
  {
    match ParseOp(op)
    case None => Failure(KeyError(op))
    case Some(o) =>
      var t :- TimeValue(value);
      ParseSymbol(Converse(o));
      Success(Cmp(Named("ctime"), Symbol(Converse(o)), FloatV(now - t)))
  }

  /** With the converse, 'age op t' selects exactly the rows whose age at
      `now` stands in relation op to t. */
  lemma {:induction false} AgeComparisonMeansAge(op: string, value: DbValue, now: real, ctime: real)
    requires AgeComparison(op, value, now).Success?
    ensures var c := AgeComparison(op, value, now).value;
      Passes(c, ctime) <==> Holds(ParseOp(op).value, now - ctime, TimeValue(value).value)
  {
    var o := ParseOp(op).value;
    var t := TimeValue(value).value;
    CreationTimeIsAge(Converse(o), now, ctime, t);
    ConverseSwaps(o, now - ctime, t);
  }

  /** The 'age' rewrite in the given variant: `invop` as written, the
      converse operator as intended. */
  function AgeRewrite(variant: Variant, op: string, value: DbValue, now: real): Result<Cmp>
  {
    match variant
    case AsWritten => AgeComparisonAsWritten(op, value, now)
    case Corrected => AgeComparison(op, value, now)
  }

  // ---------------------------------------------------------------------
  // `parse_selection`: rewriting the comparisons

  /** The comparisons a formula stands for: one per element with its count,
      in order of first occurrence, then the total number of atoms. */
  function FormulaComparisons(numbers: seq<int>): (r: seq<Cmp>)
    ensures |r| >= 1 && r[|r| - 1] == Cmp(Named("natoms"), "=", IntV(|numbers|))
  {
    var t := Tally(numbers);
    seq(|t|, k requires 0 <= k < |t| => Cmp(AtomicNumber(t[k].0), "=", IntV(t[k].1))) + [Cmp(Named("natoms"), "=", IntV(|numbers|))]
  }

  /** The element comparisons of a formula are one per atomic number that
      occurs in it, each fixing that element's count, and the counts add up
      to the number of atoms. */
  lemma {:induction false} FormulaCounts(numbers: seq<int>)
    ensures var r := FormulaComparisons(numbers);
      forall k :: 0 <= k < |r| - 1 ==>
        r[k].key.AtomicNumber? && r[k].op == "="
        && r[k].key.z in numbers && r[k].value == IntV(multiset(numbers)[r[k].key.z])
    ensures var r := FormulaComparisons(numbers);
      forall z :: z in numbers <==> exists k :: 0 <= k < |r| - 1 && r[k].key == AtomicNumber(z)
    ensures TallyTotal(Tally(numbers)) == |numbers|
  {
    var t := Tally(numbers);
    var r := FormulaComparisons(numbers);
    forall k | 0 <= k < |r| - 1
      ensures r[k].key.z in numbers && r[k].value == IntV(multiset(numbers)[r[k].key.z])
    {
      CountAt(t, k);
      assert InTable(t, t[k].0);
    }
    forall z | z in numbers ensures exists k :: 0 <= k < |r| - 1 && r[k].key == AtomicNumber(z) {
      var k :| 0 <= k < |t| && t[k].0 == z;
      assert r[k].key == AtomicNumber(z);
    }
  }

  /** In a table with distinct keys the count of an entry's key is that
      entry's count. */
  lemma {:induction false} CountAt(t: seq<(int, nat)>, k: nat)
    requires DistinctKeys(t) && k < |t|
    ensures CountOf(t, t[k].0) == t[k].1
    decreases k
  {
    if k > 0 {
      DistinctKeysHead(t);
      assert t[1..][k - 1] == t[k];
      assert t[0].0 != t[k].0;
      CountAt(t[1..], k - 1);
    }
  }

  /** What one comparison becomes. 'age' is a condition on 'ctime';
      'formula' needs '=' and becomes its element counts and 'natoms'; an
      element symbol becomes its atomic number with an integer value; any
      other string value is converted to a number where possible. A column
      in `NumericKeys` must then be compared with a number. */
  function RewriteOne(variant: Variant, c: Comparison, env: Lookups): (r: Result<seq<Cmp>>)
    ensures c.key == "age" ==>
      (r.Success? <==> AgeRewrite(variant, c.op, c.value, env.now).Success?)
      && (r.Success? ==> r.value == [AgeRewrite(variant, c.op, c.value, env.now).value])
    ensures c.key == "formula" && c.op != "=" ==> r == Failure(AssertionError)
    ensures c.key == "formula" && c.op == "=" ==>
      match env.symbolsToNumbers(c.value)
      case Failure(e) => r == Failure(e)
      case Success(numbers) => r == Success(FormulaComparisons(numbers))
    ensures c.key != "age" && c.key != "formula" && c.key in env.atomicNumbers ==>
      match PyInt(c.value)
      case Failure(e) => r == Failure(e)
      case Success(n) => r == Success([Cmp(AtomicNumber(env.atomicNumbers[c.key]), c.op, IntV(n))])
    ensures r.Success? && c.key != "age" && c.key != "formula" && c.key !in env.atomicNumbers ==>
      |r.value| == 1 && r.value[0].key == Named(c.key) && r.value[0].op == c.op
    ensures c.key !in {"age", "formula"} && c.key !in env.atomicNumbers && c.key in NumericKeys ==>
      (r.Success? <==> IsNumber(Converted(c.value, env.parseFloat)))
    ensures c.key !in {"age", "formula"} && c.key !in env.atomicNumbers && c.key !in NumericKeys ==>
      r == Success([Cmp(Named(c.key), c.op, Converted(c.value, env.parseFloat))])
  {
    if c.key == "age" then
      var cmp :- AgeRewrite(variant, c.op, c.value, env.now);
      Success([cmp])
    else if c.key == "formula" then
      if c.op != "=" then Failure(AssertionError)
      else
        var numbers :- env.symbolsToNumbers(c.value);
        Success(FormulaComparisons(numbers))
    else if c.key in env.atomicNumbers then
      var n :- PyInt(c.value);
      Success([Cmp(AtomicNumber(env.atomicNumbers[c.key]), c.op, IntV(n))])
    else
      var v := Converted(c.value, env.parseFloat);
      if c.key in NumericKeys && !IsNumber(v) then
        Failure(ValueError("Wrong type for \"" + c.key + c.op + ValueText(v) + "\" - must be a number"))
      else Success([Cmp(Named(c.key), c.op, v)])
  }

  /** An 'age' comparison becomes one condition on 'ctime' at time `now`.
      As intended it selects exactly the rows whose age stands in relation
      op to t; as written, with `invop`, exactly those whose age does not
      stand in the converse relation to t. */
  lemma {:induction false} AgeKeySelectsByAge(variant: Variant, op: string, value: DbValue, env: Lookups, ctime: real)
    requires RewriteOne(variant, Comparison("age", op, value), env).Success?
    ensures var r := RewriteOne(variant, Comparison("age", op, value), env).value;
      |r| == 1 && r[0].key == Named("ctime") && ParseOp(r[0].op).Some? && r[0].value.FloatV?
      && ParseOp(op).Some? && TimeValue(value).Success?
    ensures var r := RewriteOne(variant, Comparison("age", op, value), env).value;
      variant == Corrected ==>
        (Passes(r[0], ctime) <==> Holds(ParseOp(op).value, env.now - ctime, TimeValue(value).value))
    ensures var r := RewriteOne(variant, Comparison("age", op, value), env).value;
      variant == AsWritten ==>
        (Passes(r[0], ctime) <==> !Holds(Converse(ParseOp(op).value), env.now - ctime, TimeValue(value).value))
  {
    AgeRewriteSelects(variant, op, value, env.now, ctime);
  }

  /** The condition `AgeRewrite` yields, in either variant. */
  lemma {:induction false} AgeRewriteSelects(variant: Variant, op: string, value: DbValue, now: real, ctime: real)
    requires AgeRewrite(variant, op, value, now).Success?
    ensures var c := AgeRewrite(variant, op, value, now).value;
      c.key == Named("ctime") && ParseOp(c.op).Some? && c.value.FloatV?
      && ParseOp(op).Some? && TimeValue(value).Success?
    ensures var c := AgeRewrite(variant, op, value, now).value;
      variant == Corrected ==>
        (Passes(c, ctime) <==> Holds(ParseOp(op).value, now - ctime, TimeValue(value).value))
    ensures var c := AgeRewrite(variant, op, value, now).value;
      variant == AsWritten ==>
        (Passes(c, ctime) <==> !Holds(Converse(ParseOp(op).value), now - ctime, TimeValue(value).value))
  {
    if variant == Corrected {
      AgeComparisonMeansAge(op, value, now, ctime);
    } else {
      AgeAsWrittenSelects(op, value, now, ctime);
    }
  }

  /** A string value is converted; other values are kept. */
  function Converted(v: DbValue, parseFloat: string -> Option<real>): (r: DbValue)
    ensures !v.StrV? ==> r == v
    ensures v.StrV? ==> r == ConvertText(v.s, parseFloat)
  {
    if v.StrV? then ConvertText(v.s, parseFloat) else v
  }

  /** Every comparison of `cs` rewrites. */
  ghost predicate AllRewrite(variant: Variant, cs: seq<Comparison>, env: Lookups) {
    forall k :: 0 <= k < |cs| ==> RewriteOne(variant, cs[k], env).Success?
  }

  /** Comparison `k` is the first of `cs` whose rewrite fails, with `e`. */
  ghost predicate FirstFailureAt(variant: Variant, cs: seq<Comparison>, env: Lookups, k: int, e: PyError) {
    0 <= k < |cs| && RewriteOne(variant, cs[k], env) == Failure(e)
    && forall j :: 0 <= j < k ==> RewriteOne(variant, cs[j], env).Success?
  }

  /** All comparisons, in order; the first failure is raised. */
  function RewriteAll(variant: Variant, cs: seq<Comparison>, env: Lookups): (r: Result<seq<Cmp>>)
    ensures r.Success? <==> AllRewrite(variant, cs, env)
    ensures r.Failure? ==> exists k :: FirstFailureAt(variant, cs, env, k, r.error)
    ensures r.Success? ==> |r.value| >= |cs|
  {
    if |cs| == 0 then Success([])
    else
      var head := RewriteOne(variant, cs[0], env);
      if head.Failure? then
        assert FirstFailureAt(variant, cs, env, 0, head.error);
        Failure(head.error)
      else
        var rest := RewriteAll(variant, cs[1..], env);
        AllRewriteStep(variant, cs, env);
        if rest.Failure? then
          FirstFailureStep(variant, cs, env, rest.error);
          Failure(rest.error)
        else
          Success(head.value + rest.value)
  }

  lemma {:induction false} AllRewriteStep(variant: Variant, cs: seq<Comparison>, env: Lookups)
    requires |cs| > 0
    ensures AllRewrite(variant, cs, env) <==> RewriteOne(variant, cs[0], env).Success? && AllRewrite(variant, cs[1..], env)
  {
    assert forall k :: 1 <= k < |cs| ==> cs[1..][k - 1] == cs[k];
    if RewriteOne(variant, cs[0], env).Success? && AllRewrite(variant, cs[1..], env) {
      forall k | 0 <= k < |cs| ensures RewriteOne(variant, cs[k], env).Success? {
        if k > 0 { assert cs[k] == cs[1..][k - 1]; }
      }
    }
  }

  lemma {:induction false} FirstFailureStep(variant: Variant, cs: seq<Comparison>, env: Lookups, e: PyError)
    requires |cs| > 0 && RewriteOne(variant, cs[0], env).Success?
    requires exists k :: FirstFailureAt(variant, cs[1..], env, k, e)
    ensures exists k :: FirstFailureAt(variant, cs, env, k, e)
  {
    var k :| FirstFailureAt(variant, cs[1..], env, k, e);
    assert cs[k + 1] == cs[1..][k];
    forall j | 0 <= j < k + 1 ensures RewriteOne(variant, cs[j], env).Success? {
      if j > 0 { assert cs[j] == cs[1..][j - 1]; }
    }
    assert FirstFailureAt(variant, cs, env, k + 1, e);
  }

  /** `parse_selection`: the bare keys, and the comparisons of the selection
      followed by one '=' comparison per keyword argument, rewritten. */
  function ParseSelection(variant: Variant, selection: Selection, kwargs: seq<(string, DbValue)>, env: Lookups)
    : (r: Result<(seq<string>, seq<Cmp>)>)
    ensures r.Success? ==>
      Tokenise(Expressions(selection), env.atomicNumbers.Keys).Success?
      && r.value.0 == Tokenise(Expressions(selection), env.atomicNumbers.Keys).value.keys
    ensures Tokenise(Expressions(selection), env.atomicNumbers.Keys).Failure? ==>
      r == Failure(Tokenise(Expressions(selection), env.atomicNumbers.Keys).error)
    ensures Tokenise(Expressions(selection), env.atomicNumbers.Keys).Success? ==>
      var cs := Tokenise(Expressions(selection), env.atomicNumbers.Keys).value.comparisons + KeywordComparisons(kwargs);
      (r.Success? <==> AllRewrite(variant, cs, env))
      && (r.Failure? ==> exists k :: FirstFailureAt(variant, cs, env, k, r.error))
    ensures r.Success? ==>
      var tokens := Tokenise(Expressions(selection), env.atomicNumbers.Keys).value;
      RewriteAll(variant, tokens.comparisons, env).Success? && RewriteAll(variant, KeywordComparisons(kwargs), env).Success?
      && r.value.1 == RewriteAll(variant, tokens.comparisons, env).value + RewriteAll(variant, KeywordComparisons(kwargs), env).value
  {
    var tokens := Tokenise(Expressions(selection), env.atomicNumbers.Keys);
    if tokens.Failure? then Failure(tokens.error)
    else
      var all := RewriteAll(variant, tokens.value.comparisons + KeywordComparisons(kwargs), env);
      if all.Failure? then Failure(all.error)
      else
        RewriteAllAppend(variant, tokens.value.comparisons, KeywordComparisons(kwargs), env);
        Success((tokens.value.keys, all.value))
  }

  /** Rewriting two lists of comparisons one after the other rewrites each
      and joins the results. */
  lemma {:induction false} RewriteAllAppend(variant: Variant, a: seq<Comparison>, b: seq<Comparison>, env: Lookups)
    requires RewriteAll(variant, a + b, env).Success?
    ensures RewriteAll(variant, a, env).Success? && RewriteAll(variant, b, env).Success?
    ensures RewriteAll(variant, a + b, env).value == RewriteAll(variant, a, env).value + RewriteAll(variant, b, env).value
    decreases |a|
  {
    if |a| == 0 {
      assert a + b == b;
    } else {
      var ab := a + b;
      assert ab[0] == a[0];
      assert ab[1..] == a[1..] + b;
      RewriteAllCons(variant, ab, env);
      RewriteAllAppend(variant, a[1..], b, env);
      RewriteAllCons(variant, a, env);
      var h := RewriteOne(variant, a[0], env).value;
      var x := RewriteAll(variant, a[1..], env).value;
      var y := RewriteAll(variant, b, env).value;
      assert RewriteAll(variant, ab, env).value == h + (x + y);
      assert RewriteAll(variant, a, env).value == h + x;
      JoinAssociates(h, x, y);
    }
  }

  lemma {:induction false} JoinAssociates<T>(h: seq<T>, x: seq<T>, y: seq<T>)
    ensures h + (x + y) == (h + x) + y
  {
  }

  /** A list of comparisons rewrites when its first one and the rest do,
      to the first one's conditions followed by the rest's. */
  lemma {:induction false} RewriteAllCons(variant: Variant, cs: seq<Comparison>, env: Lookups)
    requires |cs| > 0
    ensures RewriteAll(variant, cs, env).Success? <==>
      RewriteOne(variant, cs[0], env).Success? && RewriteAll(variant, cs[1..], env).Success?
    ensures RewriteAll(variant, cs, env).Success? ==>
      RewriteAll(variant, cs, env).value == RewriteOne(variant, cs[0], env).value + RewriteAll(variant, cs[1..], env).value
  {
  }

  /** The keyword arguments as '=' comparisons, in order. */
  function KeywordComparisons(kwargs: seq<(string, DbValue)>): (r: seq<Comparison>)
    ensures |r| == |kwargs|
    ensures forall k :: 0 <= k < |r| ==> r[k] == Comparison(kwargs[k].0, "=", kwargs[k].1)
  {
    seq(|kwargs|, k requires 0 <= k < |kwargs| => Comparison(kwargs[k].0, "=", kwargs[k].1))
  }

  /** Every comparison that reaches the database on a column of
      `NumericKeys` is with a number. */
  lemma {:induction false} NumericColumnsGetNumbers(variant: Variant, cs: seq<Comparison>, env: Lookups)
    requires RewriteAll(variant, cs, env).Success?
    ensures forall k :: 0 <= k < |RewriteAll(variant, cs, env).value| ==>
      var c := RewriteAll(variant, cs, env).value[k];
      c.key.Named? && c.key.name in NumericKeys ==> IsNumber(c.value)
    decreases |cs|
  {
    if |cs| > 0 {
      var first := RewriteOne(variant, cs[0], env).value;
      OneNumeric(variant, cs[0], env);
      NumericColumnsGetNumbers(variant, cs[1..], env);
      assert RewriteAll(variant, cs, env).value == first + RewriteAll(variant, cs[1..], env).value;
    }
  }

  lemma {:induction false} OneNumeric(variant: Variant, c: Comparison, env: Lookups)
    requires RewriteOne(variant, c, env).Success?
    ensures forall k :: 0 <= k < |RewriteOne(variant, c, env).value| ==>
      var d := RewriteOne(variant, c, env).value[k];
      d.key.Named? && d.key.name in NumericKeys ==> IsNumber(d.value)
  {
    if c.key == "formula" {
      var numbers := env.symbolsToNumbers(c.value).value;
      FormulaCounts(numbers);
    }
  }

  /** An integer selection is the comparison 'id = n'. */
  lemma {:induction false} SelectById(variant: Variant, n: int, env: Lookups)
    requires "id" !in env.atomicNumbers
    ensures ParseSelection(variant, IdSelection(n), [], env) == Success(([], [Cmp(Named("id"), "=", IntV(n))]))
  {
    var cs := [Comparison("id", "=", IntV(n))];
    var exprs := [TupleExpr("id", "=", IntV(n))];
    assert exprs[1..] == [];
    assert Expressions(IdSelection(n)) == exprs;
    assert Tokenise(exprs[1..], env.atomicNumbers.Keys) == Success(Tokens([], []));
    assert [] + cs == cs;
    var noKeys: seq<string> := [];
    assert noKeys + noKeys == noKeys && cs + [] == cs;
    assert Tokenise(Expressions(IdSelection(n)), env.atomicNumbers.Keys) == Success(Tokens([], cs));
    assert cs + KeywordComparisons([]) == cs;
    assert RewriteAll(variant, cs, env) == Success([Cmp(Named("id"), "=", IntV(n))]) by {
      assert cs[1..] == [];
      assert RewriteOne(variant, cs[0], env) == Success([Cmp(Named("id"), "=", IntV(n))]);
      assert [Cmp(Named("id"), "=", IntV(n))] + [] == [Cmp(Named("id"), "=", IntV(n))];
    }
  }

  /** Keyword arguments alone select by equality on each key, in order. */
  lemma {:induction false} KeywordsAreEqualities(variant: Variant, kwargs: seq<(string, DbValue)>, env: Lookups)
    requires forall k :: 0 <= k < |kwargs| ==>
      kwargs[k].0 !in {"age", "formula"} && kwargs[k].0 !in env.atomicNumbers && kwargs[k].0 !in NumericKeys
    ensures ParseSelection(variant, NoSelection, kwargs, env).Success?
    ensures |ParseSelection(variant, NoSelection, kwargs, env).value.1| == |kwargs|
    ensures forall k :: 0 <= k < |kwargs| ==>
      ParseSelection(variant, NoSelection, kwargs, env).value.1[k] == Cmp(Named(kwargs[k].0), "=", Converted(kwargs[k].1, env.parseFloat))
  {
    var cs := KeywordComparisons(kwargs);
    assert [] + cs == cs;
    KeywordRewrites(variant, kwargs, env);
  }

  lemma {:induction false} KeywordRewrites(variant: Variant, kwargs: seq<(string, DbValue)>, env: Lookups)
    requires forall k :: 0 <= k < |kwargs| ==>
      kwargs[k].0 !in {"age", "formula"} && kwargs[k].0 !in env.atomicNumbers && kwargs[k].0 !in NumericKeys
    ensures RewriteAll(variant, KeywordComparisons(kwargs), env).Success?
    ensures |RewriteAll(variant, KeywordComparisons(kwargs), env).value| == |kwargs|
    ensures forall k :: 0 <= k < |kwargs| ==>
      RewriteAll(variant, KeywordComparisons(kwargs), env).value[k] == Cmp(Named(kwargs[k].0), "=", Converted(kwargs[k].1, env.parseFloat))
    decreases |kwargs|
  {
    if |kwargs| > 0 {
      var cs := KeywordComparisons(kwargs);
      assert cs[1..] == KeywordComparisons(kwargs[1..]);
      KeywordRewrites(variant, kwargs[1..], env);
      assert forall k :: 1 <= k < |kwargs| ==> kwargs[1..][k - 1] == kwargs[k];
    }
  }

  // ---------------------------------------------------------------------
  // `select`: the sort key

  /** `s.lstrip('-')`: what is left after the leading dashes. */
  function LStripDashes(s: string): (r: string)
    ensures |r| <= |s| && s[|s| - |r|..] == r
    ensures |r| > 0 ==> r[0] != '-'
    ensures forall i :: 0 <= i < |s| - |r| ==> s[i] == '-'
  {
    if |s| > 0 && s[0] == '-' then LStripDashes(s[1..]) else s
  }

  /** A sort key orders by the column after its leading dashes, descending
      when it starts with a dash. */
  predicate Descending(key: string) { |key| > 0 && key[0] == '-' }

  function Column(key: string): string { LStripDashes(key) }

  /** The `sort` argument of `select`: an empty or missing key is left
      alone; sorting by 'age' is sorting by 'ctime' the other way round,
      and 'user' (with any leading dashes) sorts by 'username'. */
  function SortKey(sort: Option<string>): (r: Option<string>)
    ensures sort.None? ==> r.None?
    ensures sort.Some? ==> r.Some?
    ensures sort.Some? && sort.value in {"age", "-age"} ==>
      Column(r.value) == "ctime" && (Descending(r.value) <==> !Descending(sort.value))
    ensures sort.Some? && sort.value !in {"age", "-age"} && Column(sort.value) == "user" ==>
      Column(r.value) == "username" && (Descending(r.value) <==> Descending(sort.value))
    ensures sort.Some? && sort.value !in {"age", "-age"} && Column(sort.value) != "user" ==> r == sort
  {
    match sort
    case None => None
    case Some(key) =>
      if key == "" then sort
      else if key == "age" then
        assert LStripDashes("-ctime") == "ctime" by { assert "-ctime"[1..] == "ctime"; }
        Some("-ctime")
      else if key == "-age" then Some("ctime")
      else if LStripDashes(key) == "user" then
        UserColumn(key);
        Some(key + "name")
      else sort
  }

  /** Appending to a key whose column is 'user' gives the column
      'username' with the same dashes. */
  lemma {:induction false} UserColumn(key: string)
    requires LStripDashes(key) == "user"
    ensures LStripDashes(key + "name") == "username"
    ensures Descending(key + "name") <==> Descending(key)
    decreases |key|
  {
    if |key| > 0 && key[0] == '-' {
      assert (key + "name")[1..] == key[1..] + "name";
      UserColumn(key[1..]);
    } else {
      assert key == "user";
    }
  }

  /** Rewriting the sort key a second time changes nothing. */
  lemma {:induction false} SortKeyIdempotent(sort: Option<string>)
    ensures SortKey(SortKey(sort)) == SortKey(sort)
  {
    if sort.Some? && sort.value !in {"", "age", "-age"} && LStripDashes(sort.value) == "user" {
      var r := sort.value + "name";
      assert LStripDashes(r) == "username" by {
        UserColumn(sort.value);
      }
      assert |r| >= 8 && r != "age" && r != "-age";
      SortKeyKeeps(r);
    } else if sort == Some("age") {
      assert LStripDashes("-ctime") == "ctime" by { assert "-ctime"[1..] == "ctime"; }
      SortKeyKeeps("-ctime");
    } else if sort == Some("-age") {
      SortKeyKeeps("ctime");
    }
  }

  /** A key that is not empty, not an age and not a user column is kept. */
  lemma {:induction false} SortKeyKeeps(key: string)
    requires key != "" && key != "age" && key != "-age" && LStripDashes(key) != "user"
    ensures SortKey(Some(key)) == Some(key)
  {
  }

  // ---------------------------------------------------------------------
  // `update`

  /** Python's `//` on integers: the floor of the quotient. */
  function FloorDiv(a: int, b: int): (q: int)
    requires b != 0
    ensures b > 0 ==> q * b <= a < q * b + b
    ensures b < 0 ==> q * b + b < a <= q * b
  {
    if b > 0 then
      assert a == (a / b) * b + a % b;
      a / b
    else
      var c := -b;
      var q := (-a) / c;
      assert -a == q * c + (-a) % c;
      assert q * b == -(q * c);
      q
  }

  /** A slice bound as Python resolves it: negative bounds count from the
      end, and the result is clamped to the sequence. */
  function SliceBound(i: int, n: nat): (r: nat)
    ensures r <= n
    ensures 0 <= i <= n ==> r == i
    ensures i > n ==> r == n
  {
    if i < 0 then (if i + n < 0 then 0 else i + n) else if i > n then n else i
  }

  /** `s[i:j]`. */
  function PySlice<T>(s: seq<T>, i: int, j: int): (r: seq<T>)
    ensures 0 <= i <= j <= |s| ==> r == s[i..j]
    ensures 0 <= i <= |s| <= j ==> r == s[i..]
    ensures |r| <= |s|
  {
    var lo := SliceBound(i, |s|);
    var hi := SliceBound(j, |s|);
    if lo < hi then s[lo..hi] else []
  }

  /** The `ids` argument of `update`: one id or a list of them. */
  datatype Ids = OneId(id: int) | IdList(ids: seq<int>)

  /** The number of blocks `update` uses for n ids: `(n - 1) // size + 1`,
      and none when that is negative. */
  function BlockCount(n: nat, size: int): (c: nat)
    requires size != 0
    ensures size > 0 && n == 0 ==> c == 0
    ensures size > 0 && n > 0 ==> (c - 1) * size < n <= c * size
  {
    var k := FloorDiv(n - 1, size) + 1;
    if k < 0 then 0 else k
  }

  /** The slices `update` hands to the backend, `ids[b * B:(b + 1) * B]`
      for each block b; a block size of 0 divides by zero. */
  function Blocks(ids: seq<int>, size: int): (r: Result<seq<seq<int>>>)
    ensures size == 0 <==> r == Failure(ZeroDivisionError)
    ensures size != 0 ==> r.Success? && |r.value| == BlockCount(|ids|, size)
  {
    if size == 0 then Failure(ZeroDivisionError)
    else
      var count := BlockCount(|ids|, size);
      Success(seq(count, b requires 0 <= b < count => PySlice(ids, b * size, (b + 1) * size)))
  }

  /** The concatenation of a sequence of sequences. */
  function Concat<T>(ss: seq<seq<T>>): seq<T>
  {
    if |ss| == 0 then [] else Concat(ss[..|ss| - 1]) + ss[|ss| - 1]
  }

  /** Where block b of the given size starts. */
  function BlockStart(b: nat, size: nat): nat
  {
    b * size
  }

  /** Where block b ends among n ids: `size` further on, or at the end. */
  function BlockEnd(n: nat, b: nat, size: nat): nat
  {
    if BlockStart(b, size) + size <= n then BlockStart(b, size) + size else n
  }

  /** Block b of a positive size, when it starts inside the ids. */
  lemma {:induction false} BlockAt(ids: seq<int>, size: nat, b: nat)
    requires size > 0 && BlockStart(b, size) < |ids|
    ensures PySlice(ids, b * size, (b + 1) * size) == ids[BlockStart(b, size)..BlockEnd(|ids|, b, size)]
    ensures 0 < |PySlice(ids, b * size, (b + 1) * size)| <= size
  {
    assert (b + 1) * size == b * size + size;
  }

  /** With a positive block size the blocks split the ids: together they
      are the ids in order, each is non-empty and holds at most `size` ids,
      and all but the last hold exactly `size`. */
  lemma {:induction false} BlocksPartition(ids: seq<int>, size: int)
    requires size > 0
    ensures Concat(Blocks(ids, size).value) == ids
    ensures forall b :: 0 <= b < |Blocks(ids, size).value| ==>
      0 < |Blocks(ids, size).value[b]| <= size
    ensures forall b :: 0 <= b < |Blocks(ids, size).value| - 1 ==> |Blocks(ids, size).value[b]| == size
  {
    BlocksConcat(ids, size);
    forall b | 0 <= b < |Blocks(ids, size).value|
      ensures 0 < |Blocks(ids, size).value[b]| <= size
      ensures b < |Blocks(ids, size).value| - 1 ==> |Blocks(ids, size).value[b]| == size
    {
      BlockFacts(ids, size, b);
    }
  }

  /** The blocks, concatenated, are the ids. */
  lemma {:induction false} BlocksConcat(ids: seq<int>, size: int)
    requires size > 0
    ensures Concat(Blocks(ids, size).value) == ids
  {
    var blocks := Blocks(ids, size).value;
    var n := |blocks|;
    forall b | 0 <= b < n
      ensures BlockIs(ids, size, blocks, b)
    {
      BlockFacts(ids, size, b);
    }
    var hi := if BlockStart(n, size) <= |ids| then BlockStart(n, size) else |ids|;
    assert hi == |ids| by {
      assert n == BlockCount(|ids|, size);
    }
    ConcatPrefix(ids, size, blocks, n);
    assert blocks[..n] == blocks;
    assert ids[..hi] == ids;
  }

  /** What block b of a positive size holds. */
  lemma {:induction false} BlockFacts(ids: seq<int>, size: nat, b: nat)
    requires size > 0 && b < BlockCount(|ids|, size)
    ensures BlockStart(b, size) < |ids|
    ensures Blocks(ids, size).value[b] == ids[BlockStart(b, size)..BlockEnd(|ids|, b, size)]
    ensures 0 < |Blocks(ids, size).value[b]| <= size
    ensures b < BlockCount(|ids|, size) - 1 ==> |Blocks(ids, size).value[b]| == size
  {
    var n := BlockCount(|ids|, size);
    MulMono(b, n - 1, size);
    BlockAt(ids, size, b);
    if b < n - 1 {
      MulMono(b + 1, n - 1, size);
    }
  }

  lemma {:induction false} MulMono(a: int, b: int, c: nat)
    requires a <= b
    ensures a * c <= b * c
  {
    assert b * c - a * c == (b - a) * c;
  }

  /** Block b starts inside the ids and holds the next `size` of them, or
      the rest. */
  predicate BlockIs(ids: seq<int>, size: nat, blocks: seq<seq<int>>, b: nat)
    requires b < |blocks|
  {
    BlockStart(b, size) < |ids| && blocks[b] == ids[BlockStart(b, size)..BlockEnd(|ids|, b, size)]
  }

  /** The first k blocks cover the first k * size ids. */
  lemma {:induction false} ConcatPrefix(ids: seq<int>, size: nat, blocks: seq<seq<int>>, k: nat)
    requires size > 0 && k <= |blocks|
    requires forall b :: 0 <= b < |blocks| ==> BlockIs(ids, size, blocks, b)
    ensures Concat(blocks[..k]) == ids[..if BlockStart(k, size) <= |ids| then BlockStart(k, size) else |ids|]
    decreases k
  {
    if k > 0 {
      ConcatPrefix(ids, size, blocks, k - 1);
      assert BlockIs(ids, size, blocks, k - 1);
      var lo := BlockStart(k - 1, size);
      assert lo < |ids|;
      assert lo + size == BlockStart(k, size);
      var hi := BlockEnd(|ids|, k - 1, size);
      assert blocks[..k][..k - 1] == blocks[..k - 1];
      assert Concat(blocks[..k]) == Concat(blocks[..k - 1]) + blocks[k - 1];
      assert blocks[k - 1] == ids[lo..hi];
      assert ids[..lo] + ids[lo..hi] == ids[..hi];
    }
  }

  /** `update`: the pairs to add are checked first; then each block of ids
      goes to the backend, which reports how many pairs it added and
      removed, and the counts are summed. */
  function Update(variant: Variant, ids: Ids, size: int, pairs: seq<(string, DbValue)>, extra: set<string>,
                  backend: seq<int> -> (int, int)): (r: Result<(int, int)>)
    ensures Check(variant, pairs, extra).Failure? ==> r == Failure(Check(variant, pairs, extra).error)
    ensures Check(variant, pairs, extra).Success? ==>
      (r.Success? <==> size != 0) && (size == 0 ==> r == Failure(ZeroDivisionError))
    ensures r.Success? ==> r.value == SumCounts(Blocks(IdSeq(ids), size).value, backend)
  {
    var _ :- Check(variant, pairs, extra);
    var blocks :- Blocks(IdSeq(ids), size);
    Success(SumCounts(blocks, backend))
  }

  /** The ids as a list: a single id becomes a list of one. */
  function IdSeq(ids: Ids): seq<int>
  {
    match ids
    case OneId(i) => [i]
    case IdList(l) => l
  }

  /** The backend's counts summed over the blocks. */
  function SumCounts(blocks: seq<seq<int>>, backend: seq<int> -> (int, int)): (int, int)
  {
    if |blocks| == 0 then (0, 0)
    else
      var rest := SumCounts(blocks[1..], backend);
      (backend(blocks[0]).0 + rest.0, backend(blocks[0]).1 + rest.1)
  }

  /** A backend whose counts for two lists of ids together are the sums of
      its counts for each, and which counts nothing for no ids. */
  ghost predicate Additive(backend: seq<int> -> (int, int))
  {
    && backend([]) == (0, 0)
    && forall a, b :: backend(Joined(a, b)) == (backend(a).0 + backend(b).0, backend(a).1 + backend(b).1)
  }

  /** Two lists of ids, one after the other. */
  function Joined(a: seq<int>, b: seq<int>): seq<int>
  {
    a + b
  }

  /** A concatenation starts with its first part. */
  lemma {:induction false} ConcatFront<T>(ss: seq<seq<T>>)
    requires |ss| > 0
    ensures Concat(ss) == ss[0] + Concat(ss[1..])
    decreases |ss|
  {
    var n := |ss|;
    if n == 1 {
      assert ss[..0] == [] && ss[1..] == [];
    } else {
      ConcatFront(ss[..n - 1]);
      assert ss[..n - 1][1..] == ss[1..][..n - 2];
      assert ss[..n - 1][0] == ss[0];
      assert ss[1..][n - 2] == ss[n - 1];
      assert Concat(ss[1..]) == Concat(ss[1..][..n - 2]) + ss[n - 1];
    }
  }

  /** For an additive backend the summed counts over some blocks are its
      counts for all their ids at once. */
  lemma {:induction false} SumOfConcat(blocks: seq<seq<int>>, backend: seq<int> -> (int, int))
    requires Additive(backend)
    ensures SumCounts(blocks, backend) == backend(Concat(blocks))
    decreases |blocks|
  {
    if |blocks| > 0 {
      SumOfConcat(blocks[1..], backend);
      ConcatFront(blocks);
      assert backend(Joined(blocks[0], Concat(blocks[1..])))
        == (backend(blocks[0]).0 + backend(Concat(blocks[1..])).0, backend(blocks[0]).1 + backend(Concat(blocks[1..])).1);
    }
  }

  /** Splitting into blocks changes nothing for an additive backend: with a
      positive block size, `update` reports the counts of one backend call
      on all the ids. */
  lemma {:induction false} UpdateAdditive(variant: Variant, ids: Ids, size: int, pairs: seq<(string, DbValue)>, extra: set<string>,
                  backend: seq<int> -> (int, int))
    requires size > 0 && Check(variant, pairs, extra).Success? && Additive(backend)
    ensures Update(variant, ids, size, pairs, extra, backend) == Success(backend(IdSeq(ids)))
  {
    BlocksPartition(IdSeq(ids), size);
    SumOfConcat(Blocks(IdSeq(ids), size).value, backend);
  }

  /** Updating a single row with a positive block size is one backend call
      with that id. */
  lemma {:induction false} UpdateOne(variant: Variant, id: int, size: int, pairs: seq<(string, DbValue)>, extra: set<string>,
                  backend: seq<int> -> (int, int))
    requires size > 0 && Check(variant, pairs, extra).Success?
    ensures Update(variant, OneId(id), size, pairs, extra, backend) == Success(backend([id]))
  {
    var blocks := Blocks([id], size).value;
    assert |blocks| == 1;
    assert blocks[0] == PySlice([id], 0, size) == [id];
    assert blocks[1..] == [];
    assert SumCounts(blocks, backend) == backend([id]);
  }
}
