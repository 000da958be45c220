/**
 * The server's pure pieces: choosing the next database file name from a
 * directory listing, the bulk INSERT statement with its parameters, and the
 * SELECT with an optional LIMIT. The directory listing, the request and the
 * SQLite calls stay outside; their inputs and outputs are parameters here.
 */
module Server {
  import opened Wrappers
  import opened Records

  /* ---------- JavaScript's parseInt ---------- */

  /** The white-space characters `parseInt` skips before the number. */
  predicate IsSpace(c: char) {
    c == ' ' || c == '\t' || c == '\n' || c == '\r' || c == '\U{000B}' || c == '\U{000C}' ||
    c == '\U{00A0}' || c == '\U{1680}' || ('\U{2000}' <= c <= '\U{200A}') ||
    c == '\U{2028}' || c == '\U{2029}' || c == '\U{202F}' || c == '\U{205F}' ||
    c == '\U{3000}' || c == '\U{FEFF}'
  }

  /** `s` without its leading white space. */
  function TrimStart(s: string): (r: string)
    ensures |r| <= |s| && r == s[|s| - |r|..]
    ensures forall i :: 0 <= i < |s| - |r| ==> IsSpace(s[i])
    ensures |r| == 0 || !IsSpace(r[0])
  {
    if |s| > 0 && IsSpace(s[0]) then TrimStart(s[1..]) else s
  }

  /** The value of `c` as a digit in base `radix` (2 to 36), if it is one. */
  function DigitValue(c: char, radix: nat): (d: Option<nat>)
    ensures d.Some? ==> d.value < radix
  {
    var v :=
      if '0' <= c <= '9' then (c as int - '0' as int)
      else if 'a' <= c <= 'z' then (c as int - 'a' as int) + 10
      else if 'A' <= c <= 'Z' then (c as int - 'A' as int) + 10
      else 36;
    if v < radix then Some(v) else None
  }

  /** How many characters at the start of `s` are digits in base `radix`. */
  function DigitPrefix(s: string, radix: nat): (k: nat)
    ensures k <= |s|
    ensures forall i :: 0 <= i < k ==> DigitValue(s[i], radix).Some?
    ensures k == |s| || DigitValue(s[k], radix).None?
  {
    if |s| > 0 && DigitValue(s[0], radix).Some? then 1 + DigitPrefix(s[1..], radix) else 0
  }

  /** The number written by the digits `ds`, most significant first. */
  function DigitsValue(ds: string, radix: nat): nat
    requires forall i :: 0 <= i < |ds| ==> DigitValue(ds[i], radix).Some?
  {
    if |ds| == 0 then 0
    else DigitsValue(ds[..|ds| - 1], radix) * radix + DigitValue(ds[|ds| - 1], radix).value
  }

  /** The digits after the optional sign, in base `radix`; `None` when there are none (NaN). */
  function ParseDigits(s: string, radix: nat, negative: bool): (r: Option<int>)
    ensures r.None? <==> DigitPrefix(s, radix) == 0
  {
    var k := DigitPrefix(s, radix);
    if k == 0 then None
    else
      var v: int := DigitsValue(s[..k], radix);
      Some(if negative then -v else v)
  }

  /** The sign `parseInt` accepts in front of the digits. */
  function SignOf(s: string): (bool, string) {
    if |s| > 0 && (s[0] == '+' || s[0] == '-') then (s[0] == '-', s[1..]) else (false, s)
  }

  /** `parseInt(s, 10)`: `None` stands for NaN. */
  function ParseDecimal(s: string): (r: Option<int>)
    ensures var (_, rest) := SignOf(TrimStart(s));
            r.None? <==> DigitPrefix(rest, 10) == 0
  {
    var (negative, rest) := SignOf(TrimStart(s));
    ParseDigits(rest, 10, negative)
  }

  predicate HexPrefixed(s: string) {
    |s| >= 2 && s[0] == '0' && (s[1] == 'x' || s[1] == 'X')
  }

  /**
   * `parseInt(s)` without a radix: base 16 after a `0x` or `0X` prefix,
   * base 10 otherwise.
   */
  function ParseIntAuto(s: string): (r: Option<int>)
    ensures var (negative, rest) := SignOf(TrimStart(s));
            !HexPrefixed(rest) ==> r == ParseDecimal(s)
    ensures var (negative, rest) := SignOf(TrimStart(s));
            HexPrefixed(rest) ==> r == ParseDigits(rest[2..], 16, negative)
  {
    var (negative, rest) := SignOf(TrimStart(s));
    if HexPrefixed(rest) then ParseDigits(rest[2..], 16, negative)
    else ParseDigits(rest, 10, negative)
  }

  /**
   * `parseInt` without a radix reads the hexadecimal digits after `0x` as
   * their value in base 16, whatever non-digit follows them, and a lone `0x`
   * as NaN.
   */
  lemma HexRoundTrip(ds: string, tail: string)
    requires forall i :: 0 <= i < |ds| ==> DigitValue(ds[i], 16).Some?
    requires |tail| == 0 || DigitValue(tail[0], 16).None?
    ensures ParseIntAuto("0x" + ds + tail) == if |ds| == 0 then None else Some(DigitsValue(ds, 16))
  {
    var rest := ds + tail;
    var s := "0x" + rest;
    assert "0x" + ds + tail == s;
    assert s[0] == '0' && s[1] == 'x' && s[2..] == rest;
    DigitIsPlain(s[0]);
    assert TrimStart(s) == s;
    assert SignOf(s) == (false, s);
    assert HexPrefixed(s);
    assert ParseIntAuto(s) == ParseDigits(rest, 16, false);
    DigitPrefixOfDigits(ds, tail, 16);
    assert rest[..|ds|] == ds;
  }

  /** The decimal digit of `d`. */
  function Digit(d: nat): (c: char)
    requires d < 10
    ensures DigitValue(c, 10) == Some(d)
  {
    ('0' as int + d) as char
  }

  /** `${n}` for a non-negative integer below 10^21: its decimal digits, no leading zero. */
  function ToDecimal(n: nat): (s: string)
    ensures |s| > 0 && (|s| == 1 || s[0] != '0')
    ensures forall i :: 0 <= i < |s| ==> '0' <= s[i] <= '9'
    decreases n
  {
    if n < 10 then [Digit(n)] else ToDecimal(n / 10) + [Digit(n % 10)]
  }

  lemma {:induction false} DigitsOfDecimal(n: nat)
    ensures forall i :: 0 <= i < |ToDecimal(n)| ==> DigitValue(ToDecimal(n)[i], 10).Some?
    ensures DigitsValue(ToDecimal(n), 10) == n
    decreases n
  {
    if n >= 10 {
      DigitsOfDecimal(n / 10);
      var s := ToDecimal(n);
      assert s[..|s| - 1] == ToDecimal(n / 10);
    }
  }

  /** `parseInt` reads back exactly the number `${n}` writes, whatever follows a non-digit. */
  lemma DecimalRoundTrip(n: nat, tail: string)
    requires |tail| == 0 || DigitValue(tail[0], 10).None?
    ensures ParseDecimal(ToDecimal(n) + tail) == Some(n)
  {
    var d := ToDecimal(n);
    var s := d + tail;
    DigitsOfDecimal(n);
    assert s[0] == d[0];
    DigitIsPlain(s[0]);
    assert TrimStart(s) == s;
    assert SignOf(s) == (false, s);
    DigitPrefixOfDigits(d, tail, 10);
    assert s[..|d|] == d;
  }

  /** A decimal digit is neither white space nor a sign. */
  lemma DigitIsPlain(c: char)
    requires '0' <= c <= '9'
    ensures !IsSpace(c) && c != '+' && c != '-'
  {
  }

  lemma {:induction false} DigitPrefixOfDigits(ds: string, tail: string, radix: nat)
    requires forall i :: 0 <= i < |ds| ==> DigitValue(ds[i], radix).Some?
    requires |tail| == 0 || DigitValue(tail[0], radix).None?
    ensures DigitPrefix(ds + tail, radix) == |ds|
    decreases |ds|
  {
    if |ds| > 0 {
      assert (ds + tail)[1..] == ds[1..] + tail;
      DigitPrefixOfDigits(ds[1..], tail, radix);
    } else {
      assert ds + tail == tail;
    }
  }

  /* ---------- the next database file ---------- */

  const Prefix := "database-"
  const Suffix := ".db"

  /** A name that starts with the database prefix and ends with the database suffix. */
  predicate IsDatabaseFile(f: string) {
    |Prefix| <= |f| && f[..|Prefix|] == Prefix &&
    |Suffix| <= |f| && f[|f| - |Suffix|..] == Suffix
  }

  /** A matching name is long enough for prefix and suffix not to overlap. */
  lemma DatabaseFileLength(f: string)
    requires IsDatabaseFile(f)
    ensures |f| >= |Prefix| + |Suffix|
  {
    assert forall i :: 0 <= i < |Prefix| ==> f[i] == Prefix[i] != '.';
    assert f[|f| - |Suffix|] == Suffix[0] == '.';
  }

  /** The part of a name between prefix and suffix; empty when the two overlap. */
  function Middle(f: string): string {
    if |f| >= |Prefix| + |Suffix| then f[|Prefix|..|f| - |Suffix|] else ""
  }

  /** The number a file name contributes to the maximum, `None` for NaN. */
  function FileNumber(f: string): Option<int> {
    ParseDecimal(Middle(f))
  }

  /** The database files of a listing. */
  function DatabaseFiles(files: seq<string>): (r: seq<string>)
    ensures forall f :: f in r <==> f in files && IsDatabaseFile(f)
  {
    if |files| == 0 then []
    else DatabaseFiles(files[..|files| - 1]) + (if IsDatabaseFile(files[|files| - 1]) then [files[|files| - 1]] else [])
  }

  /** The `reduce` from 0 that skips NaN and keeps `Math.max`. */
  function MaxNumber(files: seq<string>): (m: int)
    ensures m >= 0
  {
    if |files| == 0 then 0
    else
      var m := MaxNumber(files[..|files| - 1]);
      match FileNumber(files[|files| - 1])
      case None => m
      case Some(v) => if v > m then v else m
  }

  /** No listed number exceeds the maximum. */
  lemma {:induction false} MaxNumberBounds(files: seq<string>, f: string)
    requires f in files && FileNumber(f).Some?
    ensures FileNumber(f).value <= MaxNumber(files)
    decreases |files|
  {
    var init := files[..|files| - 1];
    if f != files[|files| - 1] {
      assert f in init;
      MaxNumberBounds(init, f);
    }
  }

  /** The maximum is 0 or the number of some listed file. */
  lemma {:induction false} MaxNumberAttained(files: seq<string>)
    ensures MaxNumber(files) == 0 || exists f :: f in files && FileNumber(f) == Some(MaxNumber(files))
    decreases |files|
  {
    if |files| > 0 {
      var init := files[..|files| - 1];
      var last := files[|files| - 1];
      MaxNumberAttained(init);
      if MaxNumber(files) != 0 && MaxNumber(files) == MaxNumber(init) {
        var f :| f in init && FileNumber(f) == Some(MaxNumber(init));
        assert f in files;
      }
    }
  }

  /** With no positive number listed the maximum stays at its start value 0. */
  lemma {:induction false} MaxNumberZero(files: seq<string>)
    requires forall f :: f in files ==> FileNumber(f).None? || FileNumber(f).value <= 0
    ensures MaxNumber(files) == 0
    decreases |files|
  {
    if |files| > 0 {
      var init := files[..|files| - 1];
      assert forall f :: f in init ==> f in files;
      MaxNumberZero(init);
    }
  }

  /** `database-${maxNumber + 1}.db` for the listing of the database directory. */
  function NextDatabaseName(files: seq<string>): string {
    Prefix + ToDecimal(MaxNumber(DatabaseFiles(files)) + 1) + Suffix
  }

  /** The name written from `n` reads back as `n`. */
  lemma NameNumber(n: nat, f: string)
    requires f == Prefix + ToDecimal(n) + Suffix
    ensures IsDatabaseFile(f)
    ensures FileNumber(f) == Some(n)
  {
    assert f[..|Prefix|] == Prefix;
    assert f[|f| - |Suffix|..] == Suffix;
    assert Middle(f) == ToDecimal(n);
    assert Middle(f) + "" == Middle(f);
    DecimalRoundTrip(n, "");
  }

  /**
   * The new database file is itself a database file, its number is one more
   * than the largest number found, and so it is none of the files listed.
   * This holds over unbounded integers; the source's doubles break it from
   * 2^53 on.
   */
  lemma NextDatabaseIsNew(files: seq<string>)
    ensures IsDatabaseFile(NextDatabaseName(files))
    ensures FileNumber(NextDatabaseName(files)) == Some(MaxNumber(DatabaseFiles(files)) + 1)
    ensures NextDatabaseName(files) !in files
  {
    var m := MaxNumber(DatabaseFiles(files));
    var name := NextDatabaseName(files);
    NameNumber(m + 1, name);
    AboveEveryNumber(files, name, m);
  }

  /** A database name numbered above every listed database file is not listed. */
  lemma AboveEveryNumber(files: seq<string>, name: string, m: int)
    requires IsDatabaseFile(name) && FileNumber(name) == Some(m + 1)
    requires m == MaxNumber(DatabaseFiles(files))
    ensures name !in files
  {
    forall f | f in files
      ensures f != name
    {
      if IsDatabaseFile(f) {
        assert f in DatabaseFiles(files);
        if FileNumber(f).Some? {
          MaxNumberBounds(DatabaseFiles(files), f);
        }
      }
    }
  }


  /** With no numbered database file yet, the first one is `database-1.db`. */
  lemma FirstDatabaseName(files: seq<string>)
    requires forall f :: f in files && IsDatabaseFile(f) ==> FileNumber(f).None? || FileNumber(f).value <= 0
    ensures NextDatabaseName(files) == "database-1.db"
  {
    MaxNumberZero(DatabaseFiles(files));
    assert ToDecimal(1) == [Digit(1)] == "1";
    assert Prefix + "1" + Suffix == "database-1.db";
  }


  /* ---------- the bulk insert ---------- */

  /** How often `c` occurs in `s`. */
  function Count(s: string, c: char): nat {
    if |s| == 0 then 0 else Count(s[..|s| - 1], c) + (if s[|s| - 1] == c then 1 else 0)
  }

  lemma {:induction false} CountAppend(a: string, b: string, c: char)
    ensures Count(a + b, c) == Count(a, c) + Count(b, c)
    decreases |b|
  {
    if |b| == 0 {
      assert a + b == a;
    } else {
      assert (a + b)[..|a + b| - 1] == a + b[..|b| - 1];
      CountAppend(a, b[..|b| - 1], c);
    }
  }

  /** `k` question marks separated by commas. */
  function Marks(k: nat): string
    requires k > 0
  {
    if k == 1 then "?" else Marks(k - 1) + ",?"
  }

  lemma {:induction false} MarksShape(k: nat)
    requires k > 0
    ensures Count(Marks(k), '?') == k && |Marks(k)| == 2 * k - 1
    decreases k
  {
    if k == 1 {
      assert "?"[..0] == "";
    } else {
      MarksShape(k - 1);
      CountAppend(Marks(k - 1), ",?", '?');
      assert ",?"[..1] == ",";
      assert ","[..0] == "";
    }
  }

  /** The columns the INSERT names, in order. */
  const InsertColumns := ["ID", "DOB", "Sex", "FirstName", "MiddleName", "LastName", "Email",
                          "StartDate", "EndDate", "EducationLevel", "PositionID", "BranchID",
                          "SupervisorID", "Status"]
  const Columns := 14

  lemma ColumnCount()
    ensures |InsertColumns| == Columns
  {
  }

  /** The placeholder group of one employee, `(?,?,…,?)`, one mark per column. */
  const Group := "(" + Marks(Columns) + ")"

  /**
   * The placeholder groups of `k` employees joined by commas: one `?` per
   * column per employee, `30k - 1` characters.
   */
  function Placeholders(k: nat): (r: string)
    ensures Count(r, '?') == Columns * k
    ensures k == 0 ==> r == ""
    ensures k > 0 ==> |r| == Stride * k - 1
    ensures k > 0 ==> GroupsJoined(r, k)
    decreases k
  {
    GroupShape();
    if k == 0 then ""
    else if k == 1 then
      assert Group[0 .. Stride - 1] == Group;
      Group
    else
      var p := Placeholders(k - 1);
      CountAppend(p, ",", '?');
      CountAppend(p + ",", Group, '?');
      assert Count(",", '?') == 0 by {
        assert ","[..0] == "";
      }
      var r := p + "," + Group;
      GroupsJoinedStep(p, k, r);
      r
  }

  /** The distance from one employee's group to the next: the group and a comma. */
  const Stride := 2 * Columns + 2

  /**
   * `r` is `k` copies of `Group`, each followed by a comma except the last:
   * group `j` starts at `Stride * j`.
   */
  predicate GroupsJoined(r: string, k: nat)
    requires |r| == Stride * k - 1
  {
    && (forall j :: 0 <= j < k ==> r[Stride * j .. Stride * j + Stride - 1] == Group)
    && (forall j :: 0 <= j < k - 1 ==> r[Stride * j + Stride - 1] == ',')
  }

  lemma GroupsJoinedStep(p: string, k: nat, r: string)
    requires k >= 2 && |Group| == Stride - 1
    requires |p| == Stride * (k - 1) - 1 && GroupsJoined(p, k - 1)
    requires r == p + "," + Group
    ensures |r| == Stride * k - 1 && GroupsJoined(r, k)
  {
    forall j | 0 <= j < k
      ensures r[Stride * j .. Stride * j + Stride - 1] == Group
    {
      if j < k - 1 {
        assert p[Stride * j .. Stride * j + Stride - 1] == Group;
        SliceOfFront(p, "," + Group, Stride * j, Stride * j + Stride - 1);
      } else {
        SliceOfBack(p + ",", Group);
      }
    }
    forall j | 0 <= j < k - 1
      ensures r[Stride * j + Stride - 1] == ','
    {
      if j < k - 2 {
        StrideBound(j, k - 2);
        assert p[Stride * j + Stride - 1] == ',';
        IndexOfFront(p, "," + Group, Stride * j + Stride - 1);
      } else {
        assert Stride * j + Stride - 1 == Stride * (k - 1) - 1 == |p|;
      }
    }
  }

  lemma StrideBound(j: int, m: int)
    requires 0 <= j < m
    ensures Stride * j + Stride <= Stride * m
  {
  }

  lemma IndexOfFront(p: string, q: string, i: int)
    requires 0 <= i < |p|
    ensures (p + q)[i] == p[i]
  {
  }

  lemma SliceOfFront(p: string, q: string, i: int, j: int)
    requires 0 <= i <= j <= |p|
    ensures (p + q)[i..j] == p[i..j]
  {
  }

  lemma SliceOfBack(p: string, q: string)
    ensures (p + q)[|p| .. |p| + |q|] == q
  {
  }

  lemma GroupShape()
    ensures |Group| == 2 * Columns + 1 && Count(Group, '?') == Columns
  {
    MarksShape(Columns);
    CountAppend("(", Marks(Columns), '?');
    CountAppend("(" + Marks(Columns), ")", '?');
    assert "("[..0] == "" && ")"[..0] == "";
  }

  /** `names` joined by `, `. */
  function JoinComma(names: seq<string>): string {
    if |names| == 0 then "" else if |names| == 1 then names[0]
    else JoinComma(names[..|names| - 1]) + ", " + names[|names| - 1]
  }

  const InsertHead := "INSERT INTO Employees (" + JoinComma(InsertColumns) + ") VALUES "

  /** The INSERT statement for `k` employees: the head, then one `?` per column per employee. */
  function InsertSql(k: nat): (r: string)
    ensures |InsertHead| <= |r| && r[..|InsertHead|] == InsertHead
    ensures Count(r, '?') == Columns * k
    ensures r[|InsertHead|..] == Placeholders(k)
  {
    var p := Placeholders(k);
    CountAppend(InsertHead, p, '?');
    HeadHasNoMarks();
    InsertHead + p
  }

  /** A bound SQL parameter. */
  datatype Param = PInt(n: int) | PText(s: string) | PNull

  function OptParam(v: Option<int>): Param {
    match v
    case None => PNull
    case Some(n) => PInt(n)
  }

  /** One employee's parameters in the column order of the INSERT (no `YearsExperience`). */
  function Row(e: Employee): (r: seq<Param>)
    ensures |r| == Columns
  {
    [PInt(e.ID), PInt(e.DOB), PText(e.Sex), PText(e.FirstName), PText(e.MiddleName),
     PText(e.LastName), PText(e.Email), PInt(e.StartDate), OptParam(e.EndDate), PText(e.EducationLevel),
     PInt(e.PositionID), PInt(e.BranchID), OptParam(e.SupervisorID), PText(e.Status)]
  }

  /** The property of an `Employee` object named `column`, as a bound parameter. */
  function Field(e: Employee, column: string): Option<Param> {
    match column
    case "ID" => Some(PInt(e.ID))
    case "DOB" => Some(PInt(e.DOB))
    case "Sex" => Some(PText(e.Sex))
    case "FirstName" => Some(PText(e.FirstName))
    case "MiddleName" => Some(PText(e.MiddleName))
    case "LastName" => Some(PText(e.LastName))
    case "Email" => Some(PText(e.Email))
    case "StartDate" => Some(PInt(e.StartDate))
    case "EndDate" => Some(OptParam(e.EndDate))
    case "EducationLevel" => Some(PText(e.EducationLevel))
    case "YearsExperience" => Some(PInt(e.YearsExperience))
    case "PositionID" => Some(PInt(e.PositionID))
    case "BranchID" => Some(PInt(e.BranchID))
    case "SupervisorID" => Some(OptParam(e.SupervisorID))
    case "Status" => Some(PText(e.Status))
    case _ => None
  }

  /** Each employee's parameters line up with the columns the INSERT names. */
  lemma RowFollowsColumns(e: Employee)
    ensures |Row(e)| == |InsertColumns|
    ensures forall i :: 0 <= i < |InsertColumns| ==> Field(e, InsertColumns[i]) == Some(Row(e)[i])
  {
    forall i | 0 <= i < |InsertColumns|
      ensures Field(e, InsertColumns[i]) == Some(Row(e)[i])
    {
      assert i < 7 || 7 <= i;
    }
  }

  /** The parameters of every employee of the batch, one row after the other. */
  function Params(batch: seq<Employee>): (r: seq<Param>)
    ensures |r| == Columns * |batch|
    ensures forall j :: 0 <= j < |batch| ==> (Columns * j + Columns <= |r| &&
              r[Columns * j .. Columns * j + Columns] == Row(batch[j]))
  {
    if |batch| == 0 then []
    else
      var r := Params(batch[..|batch| - 1]) + Row(batch[|batch| - 1]);
      ParamsStep(batch, r);
      r
  }

  lemma ParamsStep(batch: seq<Employee>, r: seq<Param>)
    requires |batch| > 0
    requires var p := Params(batch[..|batch| - 1]); r == p + Row(batch[|batch| - 1])
    ensures |r| == Columns * |batch|
    ensures forall j :: 0 <= j < |batch| ==> (Columns * j + Columns <= |r| &&
              r[Columns * j .. Columns * j + Columns] == Row(batch[j]))
  {
    var k := |batch| - 1;
    var p := Params(batch[..k]);
    forall j | 0 <= j < |batch|
      ensures Columns * j + Columns <= |r| && r[Columns * j .. Columns * j + Columns] == Row(batch[j])
    {
      if j < k {
        assert Columns * j + Columns <= |p|;
        assert r[Columns * j .. Columns * j + Columns] == p[Columns * j .. Columns * j + Columns];
        assert batch[..k][j] == batch[j];
      } else {
        assert r[Columns * j ..] == Row(batch[k]);
      }
    }
  }

  /** The statement of `POST /api/employees` binds exactly as many parameters as it has placeholders. */
  lemma InsertBindsEveryPlaceholder(batch: seq<Employee>)
    ensures Count(InsertSql(|batch|), '?') == |Params(batch)|
  {
  }

  lemma HeadHasNoMarks()
    ensures Count(InsertHead, '?') == 0
  {
    forall k | 0 <= k < |InsertColumns|
      ensures '?' !in InsertColumns[k]
    {
    }
    JoinHasNoMarks(InsertColumns);
    NoQuestionMark(InsertHead);
  }

  lemma {:induction false} JoinHasNoMarks(names: seq<string>)
    requires forall k :: 0 <= k < |names| ==> '?' !in names[k]
    ensures '?' !in JoinComma(names)
    decreases |names|
  {
    if |names| > 1 {
      JoinHasNoMarks(names[..|names| - 1]);
    }
  }

  lemma {:induction false} NoQuestionMark(s: string)
    requires '?' !in s
    ensures Count(s, '?') == 0
    decreases |s|
  {
    if |s| > 0 {
      NoQuestionMark(s[..|s| - 1]);
    }
  }

  /* ---------- the read ---------- */

  const SelectAll := "SELECT * FROM Employees"

  /**
   * `GET /api/employees`: `limit` is the query parameter, absent or a
   * string. An empty or absent limit, and one that parses to 0 or NaN, give
   * the plain SELECT; any other parsed value, negative ones included, is
   * bound to a `LIMIT ?`.
   */
  function ReadQuery(limit: Option<string>): (r: (string, seq<Param>))
    ensures var parsed := if limit.Some? && limit.value != "" then ParseIntAuto(limit.value) else None;
            if parsed.Some? && parsed.value != 0
            then r == (SelectAll + " LIMIT ?", [PInt(parsed.value)])
            else r == (SelectAll, [])
  {
    var parsed := if limit.Some? && limit.value != "" then ParseIntAuto(limit.value) else None;
    match parsed
    case Some(v) => if v != 0 then (SelectAll + " LIMIT ?", [PInt(v)]) else (SelectAll, [])
    case None => (SelectAll, [])
  }

  /** The read statement also binds exactly as many parameters as it has placeholders. */
  lemma ReadBindsEveryPlaceholder(limit: Option<string>)
    ensures Count(ReadQuery(limit).0, '?') == |ReadQuery(limit).1|
  {
    NoQuestionMark(SelectAll);
    NoQuestionMark(" LIMIT ");
    CountAppend(SelectAll, " LIMIT ", '?');
    CountAppend(SelectAll + " LIMIT ", "?", '?');
    assert SelectAll + " LIMIT ?" == SelectAll + " LIMIT " + "?";
    assert "?"[..0] == "";
  }

  /** A decimal limit `n` given in the query is bound as `n`. */
  lemma DecimalLimitBound(n: nat)
    requires n > 0
    ensures ReadQuery(Some(ToDecimal(n))).1 == [PInt(n)]
  {
    var d := ToDecimal(n);
    DecimalRoundTrip(n, "");
    assert d + "" == d;
    DigitIsPlain(d[0]);
    assert TrimStart(d) == d;
    assert SignOf(d) == (false, d);
    assert !HexPrefixed(d);
    assert ParseIntAuto(d) == Some(n);
  }

}
