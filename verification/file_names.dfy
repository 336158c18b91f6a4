/** The names of the stored edit sequences: `root_id=<id>-order_by=<order>-random_seed=<seed>-...`.
    The analysis scripts read the three fields back with `str.split("=")` and
    `str.split("-")`, and keep only the roots whose twelve sequence files are all
    present. */
module FileNames {
  import opened Seqs
  import opened Wrappers

  // ---------------------------------------------------------------------------
  // str.split

  /** Python's `str.split(c)` on a one-character separator: the pieces between the
      separators, as many as there are separators plus one. */
  function Split(s: string, c: char): (r: seq<string>)
    ensures |r| > 0 && r[0] <= s
    ensures forall k :: 0 <= k < |r| ==> c !in r[k]
    decreases |s|
  {
    if |s| == 0 then [""]
    else if s[0] == c then [""] + Split(s[1..], c)
    else
      var t := Split(s[1..], c);
      var head := [s[0]] + t[0];
      assert c !in head;
      assert ([head] + t[1..])[1..] == t[1..];
      [head] + t[1..]
  }

  /** `c.join(parts)`: the pieces with one separator between neighbours. */
  function Join(parts: seq<string>, c: char): string {
    if |parts| == 0 then ""
    else if |parts| == 1 then parts[0]
    else parts[0] + [c] + Join(parts[1..], c)
  }

  /** Joining undoes splitting. */
  lemma {:induction false} JoinSplit(s: string, c: char)
    ensures Join(Split(s, c), c) == s
    decreases |s|
  {
    if |s| > 0 {
      JoinSplit(s[1..], c);
      var t := Split(s[1..], c);
      assert s == [s[0]] + s[1..];
      if s[0] == c {
        assert Split(s, c) == [""] + t;
        assert (([""] + t)[1..]) == t;
      } else {
        var head := [s[0]] + t[0];
        assert Split(s, c) == [head] + t[1..];
        assert ([head] + t[1..])[1..] == t[1..];
        if |t| > 1 {
          assert Join(t, c) == t[0] + [c] + Join(t[1..], c);
        }
      }
    }
  }

  /** Splitting undoes joining, when no piece holds the separator. */
  lemma {:induction false} SplitJoin(parts: seq<string>, c: char)
    requires |parts| > 0
    requires forall k :: 0 <= k < |parts| ==> c !in parts[k]
    ensures Split(Join(parts, c), c) == parts
  {
    if |parts| == 1 {
      NoSeparator(parts[0], c);
    } else {
      SplitJoin(parts[1..], c);
      SplitFront(parts[0], Join(parts[1..], c), c);
      assert parts == [parts[0]] + parts[1..];
    }
  }

  /** A string without the separator is one piece. */
  lemma {:induction false} NoSeparator(s: string, c: char)
    requires c !in s
    ensures Split(s, c) == [s]
    decreases |s|
  {
    if |s| > 0 {
      NoSeparator(s[1..], c);
      assert s == [s[0]] + s[1..];
    }
  }

  /** A separator after a piece without one splits it off at the front. */
  lemma {:induction false} SplitFront(a: string, b: string, c: char)
    requires c !in a
    ensures Split(a + [c] + b, c) == [a] + Split(b, c)
    decreases |a|
  {
    if |a| == 0 {
      assert a + [c] + b == [c] + b;
      assert (a + [c] + b)[1..] == b;
    } else {
      SplitFront(a[1..], b, c);
      assert (a + [c] + b)[1..] == a[1..] + [c] + b;
      assert a == [a[0]] + a[1..];
    }
  }

  // ---------------------------------------------------------------------------
  // Decimal integers

  function DigitValue(d: char): int {
    d as int - '0' as int
  }

  predicate IsDigit(d: char) {
    '0' <= d <= '9'
  }

  predicate AllDigits(s: string) {
    forall k :: 0 <= k < |s| ==> IsDigit(s[k])
  }

  /** The value of a string of decimal digits, most significant first. */
  function DigitsValue(s: string): (v: nat)
    requires AllDigits(s)
  {
    if |s| == 0 then 0
    else DigitsValue(s[..|s| - 1]) * 10 + DigitValue(s[|s| - 1])
  }

  /** `astype(int)` on one string: an optional sign and at least one decimal digit;
      anything else raises `ValueError`. */
  function ParseInt(s: string): (r: Result<int>)
    ensures r.Err? ==> r.error == ValueError
    ensures r.Ok? <==>
      (AllDigits(s) && |s| > 0) || (|s| > 1 && (s[0] == '-' || s[0] == '+') && AllDigits(s[1..]))
  {
    if |s| > 0 && AllDigits(s) then Ok(DigitsValue(s))
    else if |s| > 1 && s[0] == '-' && AllDigits(s[1..]) then Ok(0 - DigitsValue(s[1..]) as int)
    else if |s| > 1 && s[0] == '+' && AllDigits(s[1..]) then Ok(DigitsValue(s[1..]))
    else Err(ValueError)
  }

  /** `str(n)` for a non-negative integer. */
  function Show(n: nat): (s: string)
    ensures |s| > 0 && AllDigits(s)
  {
    var d := ['0' + (n % 10) as char];
    if n < 10 then d else Show(n / 10) + d
  }

  /** Reading a printed id gives the id back. */
  lemma {:induction false} ParseShow(n: nat)
    ensures DigitsValue(Show(n)) == n
    ensures ParseInt(Show(n)) == Ok(n)
  {
    if n >= 10 {
      ParseShow(n / 10);
      var s := Show(n);
      assert s[..|s| - 1] == Show(n / 10);
    }
  }

  // ---------------------------------------------------------------------------
  // File-name fields

  /** `.str.split("=").str[k].str.split("-").str[0]`: the text after the `k`-th `=`
      up to the next `-`; NaN (`None`) when the name has fewer `=` than that. */
  function Field(name: string, k: nat): (r: Option<string>)
    ensures r.None? <==> k >= |Split(name, '=')|
    ensures r.Some? ==> '-' !in r.value && '=' !in r.value
  {
    var parts := Split(name, '=');
    if k < |parts| then
      var head := Split(parts[k], '-')[0];
      assert head == parts[k][..|head|];
      assert forall x :: x in head ==> x in parts[k];
      Some(head)
    else None
  }

  /** One row of the `files` table: the root id and the order and seed fields (NaN
      when missing). */
  datatype FileRow = FileRow(root: int, orderBy: Option<string>, seed: Option<string>)

  /** The three fields of one file name. The root id is required: NaN or a
      non-integer makes `astype(int)` raise `ValueError`. */
  function ParseFile(name: string): (r: Result<FileRow>)
    ensures r.Ok? <==> Field(name, 1).Some? && ParseInt(Field(name, 1).value).Ok?
    ensures r.Err? ==> r.error == ValueError
    ensures r.Ok? ==> r.value.root == ParseInt(Field(name, 1).value).value
    ensures r.Ok? ==> r.value.orderBy == Field(name, 2) && r.value.seed == Field(name, 3)
  {
    match Field(name, 1)
    case None => Err(ValueError)
    case Some(id) =>
      match ParseInt(id)
      case Err(e) => Err(e)
      case Ok(root) => Ok(FileRow(root, Field(name, 2), Field(name, 3)))
  }

  /** The name a sequence is stored under: the three fields, then anything that
      does not hold `=` and starts with `-` if non-empty. */
  function FileName(root: nat, orderBy: string, seed: string, tail: string): string {
    "root_id=" + Show(root) + "-order_by=" + orderBy + "-random_seed=" + seed + tail
  }

  /** A printed id holds neither separator. */
  lemma ShowHasNoSeparator(n: nat)
    ensures '-' !in Show(n) && '=' !in Show(n)
  {
    var id := Show(n);
    forall k | 0 <= k < |id| ensures id[k] != '-' && id[k] != '=' {
      assert IsDigit(id[k]);
    }
  }

  /** The `=`-pieces of a stored name. */
  lemma FileNameParts(root: nat, orderBy: string, seed: string, tail: string)
    requires '=' !in orderBy && '=' !in seed && '=' !in tail
    ensures Split(FileName(root, orderBy, seed, tail), '=') ==
      ["root_id", Show(root) + "-order_by", orderBy + "-random_seed", seed + tail]
  {
    var id := Show(root);
    ShowHasNoSeparator(root);
    var p1 := id + "-order_by";
    var p2 := orderBy + "-random_seed";
    var p3 := seed + tail;
    assert '=' !in p1 && '=' !in p2 && '=' !in p3;
    assert FileName(root, orderBy, seed, tail) == "root_id" + ['='] + (p1 + ['='] + (p2 + ['='] + p3));
    NoSeparator(p3, '=');
    SplitFront(p2, p3, '=');
    SplitFront(p1, p2 + ['='] + p3, '=');
    SplitFront("root_id", p1 + ['='] + (p2 + ['='] + p3), '=');
  }

  /** The first `-`-piece of `a` followed by anything starting with `-` is `a`. */
  lemma HeadPiece(a: string, rest: string)
    requires '-' !in a && |rest| > 0 && rest[0] == '-'
    ensures Split(a + rest, '-')[0] == a
  {
    assert a + rest == a + ['-'] + rest[1..];
    SplitFront(a, rest[1..], '-');
  }

  /** Parsing a stored name gives back the fields it was written from. */
  lemma FileNameRoundTrip(root: nat, orderBy: string, seed: string, tail: string)
    requires '-' !in orderBy && '=' !in orderBy && '-' !in seed && '=' !in seed
    requires '=' !in tail && (tail == "" || tail[0] == '-')
    ensures ParseFile(FileName(root, orderBy, seed, tail)) == Ok(FileRow(root, Some(orderBy), Some(seed)))
  {
    var name := FileName(root, orderBy, seed, tail);
    FileNameParts(root, orderBy, seed, tail);
    ShowHasNoSeparator(root);
    HeadPiece(Show(root), "-order_by");
    HeadPiece(orderBy, "-random_seed");
    if tail == "" {
      assert seed + tail == seed;
      NoSeparator(seed, '-');
    } else {
      HeadPiece(seed, tail);
    }
    assert Field(name, 1) == Some(Show(root));
    assert Field(name, 2) == Some(orderBy);
    assert Field(name, 3) == Some(seed);
    ParseShow(root);
  }

  /** `files["file"]...astype(int)` over the whole column: the first name whose root id
      does not parse aborts the column with `ValueError`. */
  function ParseFiles(names: seq<string>): (r: Result<seq<FileRow>>)
    ensures r.Ok? <==> forall k :: 0 <= k < |names| ==> ParseFile(names[k]).Ok?
    ensures r.Err? ==> r.error == ValueError
    ensures r.Ok? ==> |r.value| == |names|
    ensures r.Ok? ==> forall k :: 0 <= k < |names| ==> r.value[k] == ParseFile(names[k]).value
  {
    if |names| == 0 then Ok([])
    else
      var init := names[..|names| - 1];
      match ParseFiles(init)
      case Err(e) => Err(e)
      case Ok(rows) =>
        match ParseFile(names[|names| - 1])
        case Err(e) => Err(e)
        case Ok(row) => Ok(rows + [row])
  }

  // ---------------------------------------------------------------------------
  // Roots with every sequence file

  /** The number of files of one root. */
  function FileCount(rows: seq<FileRow>, root: int): (n: nat)
    ensures n <= |rows|
  {
    |Filter(rows, (f: FileRow) => f.root == root)|
  }

  /** `file_counts == 12`: the number of sequence files each finished root has. */
  const FilesPerRoot: nat := 12

  /** `has_all`: the roots with exactly twelve files. */
  function HasAll(rows: seq<FileRow>): (r: set<int>)
    ensures forall root :: root in r <==>
      (exists f :: f in rows && f.root == root) && FileCount(rows, root) == FilesPerRoot
  {
    set f | f in rows && FileCount(rows, f.root) == FilesPerRoot :: f.root
  }

  /** `files.query("root_id in @has_all")`: the rows of finished roots, in order. */
  function FilesFinished(rows: seq<FileRow>): (r: seq<FileRow>)
  {
    var all := HasAll(rows);
    Filter(rows, (f: FileRow) => f.root in all)
  }

  /** Filtering on the root alone keeps every file of a kept root. */
  lemma {:induction false} FilterByRoot(rows: seq<FileRow>, keep: set<int>, root: int)
    requires root in keep
    ensures FileCount(Filter(rows, (f: FileRow) => f.root in keep), root) == FileCount(rows, root)
  {
    var k := (f: FileRow) => f.root in keep;
    var same := (f: FileRow) => f.root == root;
    if |rows| > 0 {
      var init := rows[..|rows| - 1];
      var last := rows[|rows| - 1];
      FilterByRoot(init, keep, root);
      var tail := if k(last) then [last] else [];
      assert Filter(rows, k) == Filter(init, k) + tail;
      FilterAppend(Filter(init, k), tail, same);
      assert |Filter(tail, same)| == if same(last) then 1 else 0 by {
        if k(last) { assert tail[..0] == []; }
      }
    }
  }

  /** The finished table holds exactly the rows of roots with twelve files, and for
      each of them all twelve. */
  lemma FinishedSpec(rows: seq<FileRow>)
    ensures forall f :: f in FilesFinished(rows) <==> f in rows && FileCount(rows, f.root) == FilesPerRoot
    ensures forall f :: f in FilesFinished(rows) ==> FileCount(FilesFinished(rows), f.root) == FilesPerRoot
  {
    var all := HasAll(rows);
    var fin := FilesFinished(rows);
    forall f | f in rows && FileCount(rows, f.root) == FilesPerRoot ensures f in fin {
      var i :| 0 <= i < |rows| && rows[i] == f;
    }
    forall f | f in fin ensures FileCount(fin, f.root) == FilesPerRoot {
      var i :| 0 <= i < |fin| && fin[i] == f;
      FilterByRoot(rows, all, f.root);
    }
  }
}
