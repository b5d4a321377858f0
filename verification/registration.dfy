/**
 Registering an employee against the employees table: the id is minted from
 the number of rows already in the department, and the table's UNIQUE emp_id
 column rejects an id that is already taken. Also the `/api/get_next_id`
 preview of that id.
 */
module Registration {
  import opened Wrappers
  import opened EmployeeId

  /** A row of the employees table; a missing form field is stored as NULL (None). */
  datatype Employee = Employee(empid: string, name: Option<string>, department: Option<string>)

  /** The emp_id column, in row order. */
  function Ids(table: seq<Employee>): (ids: seq<string>)
    ensures |ids| == |table|
  {
    seq(|table|, i requires 0 <= i < |table| => table[i].empid)
  }

  /** The department code of every row, in row order ("GEN" for unlisted and missing departments). */
  function Codes(table: seq<Employee>): (codes: seq<string>)
    ensures |codes| == |table|
  {
    seq(|table|, i requires 0 <= i < |table| => DeptCode(table[i].department))
  }

  /**
   `SELECT COUNT(*) FROM employees WHERE department=?`. Comparing with NULL is
   never true in SQL, so a missing department counts no rows at all.
   */
  function CountInDepartment(table: seq<Employee>, dept: Option<string>): (n: nat)
    ensures n <= |table|
  {
    if table == [] then 0
    else
      CountInDepartment(table[..|table| - 1], dept) +
      (if dept.Some? && table[|table| - 1].department == dept then 1 else 0)
  }

  /** How a registration ends: the row is inserted, or the UNIQUE constraint on emp_id rejects it. */
  datatype Registered = Inserted(empid: string, table: seq<Employee>) | DuplicateEmpId(empid: string)

  /** Appending a row appends its id and its code. */
  lemma AppendRow(table: seq<Employee>, row: Employee)
    ensures Ids(table + [row]) == Ids(table) + [row.empid]
    ensures Codes(table + [row]) == Codes(table) + [DeptCode(row.department)]
  {
    var t := table + [row];
    assert forall i :: 0 <= i < |table| ==> t[i] == table[i];
  }

  /**
   The `/register` POST as written: count the rows of the same department
   name, mint the id, insert the row.
   */
  function Register(table: seq<Employee>, name: Option<string>, dept: Option<string>): (r: Registered)
    ensures r.Inserted? ==> r.empid !in Ids(table) && Ids(r.table) == Ids(table) + [r.empid]
    ensures r.Inserted? ==> r.table == table + [Employee(r.empid, name, dept)]
    ensures r.DuplicateEmpId? ==> r.empid in Ids(table)
  {
    var empid := MintId(dept, CountInDepartment(table, dept));
    if empid in Ids(table) then DuplicateEmpId(empid)
    else
      AppendRow(table, Employee(empid, name, dept));
      Inserted(empid, table + [Employee(empid, name, dept)])
  }

  /** The number of entries equal to code. */
  function Occurrences(codes: seq<string>, code: string): (n: nat)
    ensures n <= |codes|
  {
    if codes == [] then 0
    else Occurrences(codes[..|codes| - 1], code) + (if codes[|codes| - 1] == code then 1 else 0)
  }

  /** The id registration should mint: one more than the number of rows sharing the department's code. */
  function CorrectedId(table: seq<Employee>, dept: Option<string>): string
  {
    EmpId(DeptCode(dept), Occurrences(Codes(table), DeptCode(dept)) + 1)
  }

  /** Registration counting by department code rather than by department name. */
  function RegisterCorrected(table: seq<Employee>, name: Option<string>, dept: Option<string>): (r: Registered)
    ensures r.Inserted? ==> r.empid !in Ids(table) && Ids(r.table) == Ids(table) + [r.empid]
    ensures r.Inserted? ==> r.table == table + [Employee(r.empid, name, dept)]
    ensures r.DuplicateEmpId? ==> r.empid in Ids(table)
  {
    var empid := CorrectedId(table, dept);
    if empid in Ids(table) then DuplicateEmpId(empid)
    else
      AppendRow(table, Employee(empid, name, dept));
      Inserted(empid, table + [Employee(empid, name, dept)])
  }

  /**
   Each id is the one minted from its code and the number of earlier entries
   with that code: what registration numbered by code produces, row by row.
   */
  ghost predicate Numbered(codes: seq<string>, ids: seq<string>, mint: (string, nat) -> string)
  {
    |codes| == |ids| &&
    (codes == [] ||
      var n := |codes| - 1;
      Numbered(codes[..n], ids[..n], mint) && ids[n] == mint(codes[n], Occurrences(codes[..n], codes[n]) + 1))
  }

  /** Every row holds the id corrected registration would have minted for it when it was added. */
  ghost predicate WellNumbered(table: seq<Employee>)
  {
    Numbered(Codes(table), Ids(table), EmpId)
  }

  predicate Words(codes: seq<string>)
  {
    forall i :: 0 <= i < |codes| ==> IsUpperWord(codes[i])
  }

  /** Ids minted for two codes, each a word of capitals, agree only when both the codes and the counts do. */
  ghost predicate MintInjective(mint: (string, nat) -> string)
  {
    forall c1, n1, c2, n2 :: IsUpperWord(c1) && IsUpperWord(c2) && mint(c1, n1) == mint(c2, n2) ==> c1 == c2 && n1 == n2
  }

  lemma EmpIdInjective()
    ensures MintInjective(EmpId)
  {
    forall c1, n1, c2, n2 | IsUpperWord(c1) && IsUpperWord(c2) && EmpId(c1, n1) == EmpId(c2, n2)
      ensures c1 == c2 && n1 == n2
    {
      if c1 != c2 {
        EmpIdInjectiveInCode(c1, c2, n1, n2);
      } else if n1 != n2 {
        EmpIdInjectiveInCount(c1, n1, n2);
      }
    }
  }

  lemma {:induction false} OccurrencesPrefix(codes: seq<string>, j: nat, code: string)
    requires j <= |codes|
    ensures Occurrences(codes[..j], code) <= Occurrences(codes, code)
  {
    if j < |codes| {
      var p := codes[..|codes| - 1];
      assert p[..j] == codes[..j];
      OccurrencesPrefix(p, j, code);
    } else {
      assert codes[..j] == codes;
    }
  }

  /** Entry i is counted by its own code, so fewer entries of that code precede it than the whole sequence holds. */
  lemma OccurrencesBelow(codes: seq<string>, i: nat)
    requires i < |codes|
    ensures Occurrences(codes[..i], codes[i]) < Occurrences(codes, codes[i])
  {
    assert codes[..i + 1][..i] == codes[..i];
    OccurrencesPrefix(codes, i + 1, codes[i]);
  }

  /** Entry i of a numbered sequence holds the id minted from the entries before it. */
  lemma {:induction false} NumberedAt(codes: seq<string>, ids: seq<string>, mint: (string, nat) -> string, i: nat)
    requires Numbered(codes, ids, mint) && i < |codes|
    ensures ids[i] == mint(codes[i], Occurrences(codes[..i], codes[i]) + 1)
  {
    var n := |codes| - 1;
    if i < n {
      NumberedAt(codes[..n], ids[..n], mint, i);
      assert codes[..n][..i] == codes[..i];
    } else {
      assert codes[..i] == codes[..n];
    }
  }

  /** With an injective minting, no entry of a numbered sequence holds the next id of any code. */
  lemma NextIdFresh(codes: seq<string>, ids: seq<string>, mint: (string, nat) -> string, c: string)
    requires Numbered(codes, ids, mint) && MintInjective(mint) && Words(codes) && IsUpperWord(c)
    ensures mint(c, Occurrences(codes, c) + 1) !in ids
  {
    forall i | 0 <= i < |ids|
      ensures ids[i] != mint(c, Occurrences(codes, c) + 1)
    {
      NumberedAt(codes, ids, mint, i);
      OccurrencesBelow(codes, i);
    }
  }

  /** A numbered sequence holds every id of a code up to that code's count. */
  lemma {:induction false} NumberedHoldsAll(codes: seq<string>, ids: seq<string>, mint: (string, nat) -> string, c: string, k: nat)
    requires Numbered(codes, ids, mint) && 1 <= k <= Occurrences(codes, c)
    ensures mint(c, k) in ids
  {
    var n := |codes| - 1;
    if k <= Occurrences(codes[..n], c) {
      NumberedHoldsAll(codes[..n], ids[..n], mint, c, k);
      var i :| 0 <= i < n && ids[..n][i] == mint(c, k);
      assert ids[i] == mint(c, k);
    } else {
      assert codes[n] == c;
      assert ids[n] == mint(c, k);
    }
  }

  /** Below a code's count the minted id is taken; at the count it is free. */
  lemma NextIdTakenIff(codes: seq<string>, ids: seq<string>, mint: (string, nat) -> string, c: string, n: nat)
    requires Numbered(codes, ids, mint) && MintInjective(mint) && Words(codes) && IsUpperWord(c)
    requires n <= Occurrences(codes, c)
    ensures mint(c, n + 1) !in ids <==> n == Occurrences(codes, c)
  {
    if n == Occurrences(codes, c) {
      NextIdFresh(codes, ids, mint, c);
    } else {
      NumberedHoldsAll(codes, ids, mint, c, n + 1);
    }
  }

  lemma NumberedExtend(codes: seq<string>, ids: seq<string>, mint: (string, nat) -> string, c: string)
    requires Numbered(codes, ids, mint)
    ensures Numbered(codes + [c], ids + [mint(c, Occurrences(codes, c) + 1)], mint)
  {
    var cs := codes + [c];
    var xs := ids + [mint(c, Occurrences(codes, c) + 1)];
    assert cs[..|codes|] == codes && xs[..|codes|] == ids;
  }

  /** Every row's code is a word of capital letters. */
  lemma CodesAreAllWords(table: seq<Employee>)
    ensures Words(Codes(table))
  {
    forall i | 0 <= i < |table|
      ensures IsUpperWord(Codes(table)[i])
    {
      CodesAreWords(table[i].department);
    }
  }

  /** In a well-numbered table no row holds the id corrected registration mints next. */
  lemma CorrectedIdFresh(table: seq<Employee>, dept: Option<string>)
    requires WellNumbered(table)
    ensures CorrectedId(table, dept) !in Ids(table)
  {
    CodesAreAllWords(table);
    CodesAreWords(dept);
    EmpIdInjective();
    NextIdFresh(Codes(table), Ids(table), EmpId, DeptCode(dept));
  }

  /** Corrected registration never hits the UNIQUE constraint, and keeps the table well numbered. */
  lemma RegisterCorrectedInserts(table: seq<Employee>, name: Option<string>, dept: Option<string>)
    requires WellNumbered(table)
    ensures RegisterCorrected(table, name, dept).Inserted?
    ensures RegisterCorrected(table, name, dept).empid == CorrectedId(table, dept)
    ensures WellNumbered(RegisterCorrected(table, name, dept).table)
  {
    CorrectedIdFresh(table, dept);
    var empid := CorrectedId(table, dept);
    AppendRow(table, Employee(empid, name, dept));
    NumberedExtend(Codes(table), Ids(table), EmpId, DeptCode(dept));
  }

  /** A well-numbered table holds every id of a code up to that code's row count. */
  lemma WellNumberedHoldsAll(table: seq<Employee>, code: string, k: nat)
    requires WellNumbered(table) && 1 <= k <= Occurrences(Codes(table), code)
    ensures EmpId(code, k) in Ids(table)
  {
    NumberedHoldsAll(Codes(table), Ids(table), EmpId, code, k);
  }

  /** The codes of a prefix of the table are a prefix of its codes. */
  lemma CodesOfPrefix(table: seq<Employee>, j: nat)
    requires j <= |table|
    ensures Codes(table[..j]) == Codes(table)[..j]
  {
  }

  /** Rows of one department name all carry that department's code, so they count at most the code's rows. */
  lemma {:induction false} CountInDepartmentAtMost(table: seq<Employee>, dept: Option<string>)
    ensures CountInDepartment(table, dept) <= Occurrences(Codes(table), DeptCode(dept))
  {
    if table != [] {
      var n := |table| - 1;
      CountInDepartmentAtMost(table[..n], dept);
      CodesOfPrefix(table, n);
    }
  }

  /** A row's department is a listed department d exactly when the row carries d's code. */
  lemma ListedCodeIff(dept: Option<string>, d: string)
    requires d in DeptCodes
    ensures DeptCode(dept) == DeptCodes[d] <==> dept == Some(d)
  {
    CodeDeptsInvertsTable(d);
    if dept.Some? && dept.value in DeptCodes {
      CodeDeptsInvertsTable(dept.value);
    }
    assert GeneralCode !in CodeDepts;
  }

  /** A listed department's code belongs to that department alone, so counting by name and by code agree. */
  lemma {:induction false} ListedCountsAgree(table: seq<Employee>, d: string)
    requires d in DeptCodes
    ensures CountInDepartment(table, Some(d)) == Occurrences(Codes(table), DeptCodes[d])
  {
    if table != [] {
      var n := |table| - 1;
      ListedCountsAgree(table[..n], d);
      CodesOfPrefix(table, n);
      ListedCodeIff(table[n].department, d);
    }
  }

  /**
   On a well-numbered table, registration as written inserts exactly when the
   rows of the department's name are all the rows of its code. Otherwise the
   id it mints is already taken.
   */
  lemma AsWrittenInsertsIff(table: seq<Employee>, name: Option<string>, dept: Option<string>)
    requires WellNumbered(table)
    ensures Register(table, name, dept).Inserted? <==>
      CountInDepartment(table, dept) == Occurrences(Codes(table), DeptCode(dept))
  {
    var c := DeptCode(dept);
    var n := CountInDepartment(table, dept);
    CountInDepartmentAtMost(table, dept);
    CodesAreAllWords(table);
    CodesAreWords(dept);
    EmpIdInjective();
    NextIdTakenIff(Codes(table), Ids(table), EmpId, c, n);
    assert Register(table, name, dept).empid == EmpId(c, n + 1);
  }

  /** When registration as written inserts, it mints the corrected id and the table stays well numbered. */
  lemma AsWrittenIsCorrected(table: seq<Employee>, name: Option<string>, dept: Option<string>)
    requires WellNumbered(table)
    requires CountInDepartment(table, dept) == Occurrences(Codes(table), DeptCode(dept))
    ensures Register(table, name, dept).Inserted?
    ensures Register(table, name, dept) == RegisterCorrected(table, name, dept)
    ensures WellNumbered(Register(table, name, dept).table)
  {
    RegisterCorrectedInserts(table, name, dept);
    assert MintId(dept, CountInDepartment(table, dept)) == CorrectedId(table, dept);
  }

  /** Registration as written never breaks the numbering: a rejected request leaves the table as it was, an inserted one keeps it well numbered. */
  lemma RegisterKeepsWellNumbered(table: seq<Employee>, name: Option<string>, dept: Option<string>)
    requires WellNumbered(table)
    ensures Register(table, name, dept).Inserted? ==> WellNumbered(Register(table, name, dept).table)
  {
    AsWrittenInsertsIff(table, name, dept);
    if Register(table, name, dept).Inserted? {
      AsWrittenIsCorrected(table, name, dept);
    }
  }

  /** The employees table after a run of `/register` requests (name, department) on an empty table. */
  function Replay(reqs: seq<(Option<string>, Option<string>)>): seq<Employee>
  {
    if reqs == [] then []
    else
      var t := Replay(reqs[..|reqs| - 1]);
      var q := reqs[|reqs| - 1];
      match Register(t, q.0, q.1)
      case Inserted(_, t') => t'
      case DuplicateEmpId(_) => t
  }

  /** Every table the application builds from an empty one is well numbered, and its ids are pairwise distinct. */
  lemma {:induction false} ReplayWellNumbered(reqs: seq<(Option<string>, Option<string>)>)
    ensures WellNumbered(Replay(reqs))
    ensures forall i, j :: 0 <= i < j < |Replay(reqs)| ==> Replay(reqs)[i].empid != Replay(reqs)[j].empid
  {
    if reqs != [] {
      var p := reqs[..|reqs| - 1];
      var t := Replay(p);
      var q := reqs[|reqs| - 1];
      ReplayWellNumbered(p);
      RegisterKeepsWellNumbered(t, q.0, q.1);
      var r := Register(t, q.0, q.1);
      if r.Inserted? {
        var t' := r.table;
        forall i, j | 0 <= i < j < |t'|
          ensures t'[i].empid != t'[j].empid
        {
          if j == |t| {
            assert Ids(t)[i] == t[i].empid;
          } else {
            assert t'[i] == t[i] && t'[j] == t[j];
          }
        }
      }
    }
  }

  /** Listed departments never hit the UNIQUE constraint, as written. */
  lemma ListedDepartmentInserts(table: seq<Employee>, name: Option<string>, d: string)
    requires WellNumbered(table) && d in DeptCodes
    ensures Register(table, name, Some(d)).Inserted?
    ensures WellNumbered(Register(table, name, Some(d)).table)
  {
    ListedCountsAgree(table, d);
    AsWrittenIsCorrected(table, name, Some(d));
  }

  /**
   Two unlisted departments, one after the other, on an empty table: both count
   zero rows of their own name and mint "JSWGEN001", so the second is rejected.
   */
  lemma UnlistedDepartmentsCollide(n1: Option<string>, n2: Option<string>)
    ensures Register([], n1, Some("Security")).Inserted?
    ensures var t := Register([], n1, Some("Security")).table;
      Register(t, n2, Some("Canteen")) == DuplicateEmpId("JSWGEN001")
  {
    UnlistedDepartmentsShareCode();
    var t := Register([], n1, Some("Security")).table;
    assert t == [Employee("JSWGEN001", n1, Some("Security"))];
    assert CountInDepartment(t[..0], Some("Canteen")) == 0;
    assert Ids(t)[0] == "JSWGEN001";
  }

  /** The corrected registration gives the second unlisted department the next "GEN" number. */
  lemma UnlistedDepartmentsCorrected(n1: Option<string>, n2: Option<string>)
    ensures var t := RegisterCorrected([], n1, Some("Security")).table;
      RegisterCorrected(t, n2, Some("Canteen")).Inserted? &&
      RegisterCorrected(t, n2, Some("Canteen")).empid == "JSWGEN002"
  {
    FirstUnlistedCorrected(n1);
    SecondUnlistedCorrected([Employee("JSWGEN001", n1, Some("Security"))], n2);
  }

  lemma FirstUnlistedCorrected(n1: Option<string>)
    ensures RegisterCorrected([], n1, Some("Security")).table == [Employee("JSWGEN001", n1, Some("Security"))]
    ensures WellNumbered(RegisterCorrected([], n1, Some("Security")).table)
  {
    assert WellNumbered([]);
    RegisterCorrectedInserts([], n1, Some("Security"));
    UnlistedExamples();
    GeneralIds();
  }

  lemma SecondUnlistedCorrected(t: seq<Employee>, n2: Option<string>)
    requires WellNumbered(t) && |t| == 1 && DeptCode(t[0].department) == GeneralCode
    ensures RegisterCorrected(t, n2, Some("Canteen")).Inserted?
    ensures RegisterCorrected(t, n2, Some("Canteen")).empid == "JSWGEN002"
  {
    RegisterCorrectedInserts(t, n2, Some("Canteen"));
    UnlistedExamples();
    assert Codes(t) == [GeneralCode];
    assert Occurrences([GeneralCode], GeneralCode) == 1 by {
      assert [GeneralCode][..0] == [];
    }
    GeneralIds();
  }

  /** The `/api/get_next_id` replies. */
  datatype NextIdReply =
    | MissingDepartment  // 400 "missing department"
    | DbColumnIssue      // 500: the count query raised
    | NextId(empid: string)

  /**
   `/api/get_next_id`: a missing or empty department is refused before any
   query; dbCount is the result of the per-department count query, none when
   it raised.
   */
  function GetNextId(dept: Option<string>, dbCount: Option<nat>): (r: NextIdReply)
    ensures r == MissingDepartment <==> dept == None || dept == Some("")
    ensures r.NextId? ==> dbCount.Some? && r.empid == MintId(dept, dbCount.value)
  {
    if dept == None || dept.value == "" then MissingDepartment
    else if dbCount == None then DbColumnIssue
    else NextId(MintId(dept, dbCount.value))
  }

  /** For a named department, the preview is the id the registration will try to insert. */
  lemma GetNextIdPreviewsRegister(table: seq<Employee>, name: Option<string>, d: string)
    requires d != ""
    ensures GetNextId(Some(d), Some(CountInDepartment(table, Some(d)))) ==
      NextId(Register(table, name, Some(d)).empid)
  {
  }
}
