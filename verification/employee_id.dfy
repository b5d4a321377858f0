/**
 Employee ids: the department-code table, the code lookup with its "GEN"
 default, and the format "JSW" + code + count, zero-padded to three digits.
 */
module EmployeeId {
  import opened Wrappers

  /** DEPT_CODES: department name to its code. */
  const DeptCodes: map<string, string> := map[
    "Iron Zone" := "IRZ",
    "Sinter Plant" := "SIN",
    "Coke Oven Plant" := "COP",
    "Blast Furnace" := "BLF",
    "Steel Melt Shop (SMS)" := "SMS",
    "Ladle Refining Furnace (LRF)" := "LRF",
    "Vacuum Degassing (VD)" := "VD",
    "Continuous Casting Machine (CCM)" := "CCM",
    "Blooming Mill" := "BLM",
    "Bar & Rod Mill (BRM)" := "BRM",
    "Annealing Unit" := "ANL",
    "Bright Bar Unit" := "BBU",
    "Air Separation Plant (ASP)" := "ASP",
    "Captive Power Plant (CPP)" := "CPP",
    "Gas Plant" := "GAS",
    "Water Treatment Plant" := "WTP",
    "Wastewater Treatment Plant" := "WWT",
    "Material Handling & Logistics" := "LOG",
    "Human Resources (HR)" := "HR",
    "Finance & Accounts" := "FIN",
    "Safety, Health & Environment (SHE)" := "SHE",
    "Maintenance Department" := "MNT",
    "Production Planning & Control (PPC)" := "PPC",
    "Quality Assurance / Quality Control (QA/QC)" := "QAQ",
    "Information Technology (IT)" := "IT",
    "Administration" := "ADM"
  ]

  /** The code of every department missing from the table, and of a missing department. */
  const GeneralCode := "GEN"

  /** `DEPT_CODES.get(dept, "GEN")`; a missing form field (None) is never a key. */
  function DeptCode(dept: Option<string>): (code: string)
    ensures dept.None? ==> code == GeneralCode
  {
    if dept.Some? && dept.value in DeptCodes then DeptCodes[dept.value] else GeneralCode
  }

  predicate IsUpperWord(s: string)
  {
    |s| > 0 && forall i :: 0 <= i < |s| ==> 'A' <= s[i] <= 'Z'
  }

  predicate IsDigits(s: string)
  {
    forall i :: 0 <= i < |s| ==> '0' <= s[i] <= '9'
  }

  function DigitChar(d: nat): char
    requires d < 10
  {
    ('0' as int + d) as char
  }

  /** `str(n)`: the decimal digits of n, without leading zeros. */
  function Decimal(n: nat): (s: string)
    ensures |s| >= 1 && IsDigits(s)
  {
    if n < 10 then [DigitChar(n)] else Decimal(n / 10) + [DigitChar(n % 10)]
  }

  function ZeroRun(k: nat): (s: string)
    ensures |s| == k && IsDigits(s)
  {
    seq(k, _ => '0')
  }

  /** `f"{n:03d}"`: n in decimal, left-padded with zeros to at least three digits. */
  function ZeroPad3(n: nat): (s: string)
    ensures |s| >= 3 && IsDigits(s)
  {
    var d := Decimal(n);
    if |d| >= 3 then d else ZeroRun(3 - |d|) + d
  }

  /** `f"JSW{code}{count:03d}"`. */
  function EmpId(code: string, count: nat): (id: string)
    ensures |id| >= |code| + 6 && id[..3] == "JSW"
  {
    "JSW" + code + ZeroPad3(count)
  }

  /** The id minted for a department with dbCount employees already registered: the count is one more. */
  function MintId(dept: Option<string>, dbCount: nat): (id: string)
    ensures |id| >= 6 && id[..3] == "JSW"
  {
    EmpId(DeptCode(dept), dbCount + 1)
  }

  /** The number a string of decimal digits denotes. */
  function ValueOf(s: string): nat
    requires IsDigits(s)
  {
    if s == [] then 0 else ValueOf(s[..|s| - 1]) * 10 + (s[|s| - 1] as int - '0' as int)
  }

  lemma {:induction false} DecimalValue(n: nat)
    ensures ValueOf(Decimal(n)) == n
  {
    if n >= 10 {
      DecimalValue(n / 10);
      var s := Decimal(n);
      assert s[..|s| - 1] == Decimal(n / 10);
    }
  }

  lemma {:induction false} LeadingZerosValue(k: nat, s: string)
    requires IsDigits(s)
    ensures ValueOf(ZeroRun(k) + s) == ValueOf(s)
  {
    var z := ZeroRun(k);
    if s == [] {
      assert z + s == z;
      ZeroRunValue(k);
    } else {
      var t := s[..|s| - 1];
      LeadingZerosValue(k, t);
      assert (z + s)[..|z + s| - 1] == z + t;
    }
  }

  lemma {:induction false} ZeroRunValue(k: nat)
    ensures ValueOf(ZeroRun(k)) == 0
  {
    if k > 0 {
      assert ZeroRun(k)[..k - 1] == ZeroRun(k - 1);
      ZeroRunValue(k - 1);
    }
  }

  /**
   The padded count has at least three digits, is never truncated (it ends with
   the full decimal form of the count) and reads back as the count.
   */
  lemma ZeroPad3Spec(n: nat)
    ensures IsDigits(ZeroPad3(n))
    ensures |ZeroPad3(n)| == if |Decimal(n)| >= 3 then |Decimal(n)| else 3
    ensures ZeroPad3(n)[|ZeroPad3(n)| - |Decimal(n)|..] == Decimal(n)
    ensures ValueOf(ZeroPad3(n)) == n
  {
    DecimalValue(n);
    var d := Decimal(n);
    if |d| < 3 {
      LeadingZerosValue(3 - |d|, d);
    }
  }

  /** Counts below 1000 give exactly three digits. */
  lemma {:induction false} DecimalLength(n: nat)
    ensures n < 10 ==> |Decimal(n)| == 1
    ensures n < 100 ==> |Decimal(n)| <= 2
    ensures n < 1000 ==> |Decimal(n)| <= 3
    ensures n >= 1000 ==> |Decimal(n)| >= 4
  {
    if n >= 10 {
      DecimalLength(n / 10);
    }
  }

  /** The id splits back into "JSW", the code and the count. */
  lemma EmpIdParts(code: string, count: nat)
    ensures var id := EmpId(code, count);
      && id[..3] == "JSW"
      && id[3..3 + |code|] == code
      && IsDigits(id[3 + |code|..])
      && ValueOf(id[3 + |code|..]) == count
  {
    var id := EmpId(code, count);
    ZeroPad3Spec(count);
    assert id[3 + |code|..] == ZeroPad3(count);
  }

  /** Within one code, distinct counts give distinct ids. */
  lemma EmpIdInjectiveInCount(code: string, c1: nat, c2: nat)
    requires c1 != c2
    ensures EmpId(code, c1) != EmpId(code, c2)
  {
    EmpIdParts(code, c1);
    EmpIdParts(code, c2);
  }

  /**
   Ids with different codes differ whatever the counts: a code is letters and
   the padded count digits, so the first digit after "JSW" marks where the
   code ends.
   */
  lemma EmpIdInjectiveInCode(code1: string, code2: string, c1: nat, c2: nat)
    requires IsUpperWord(code1) && IsUpperWord(code2) && code1 != code2
    ensures EmpId(code1, c1) != EmpId(code2, c2)
  {
    var id1 := EmpId(code1, c1);
    var id2 := EmpId(code2, c2);
    ZeroPad3Spec(c1);
    ZeroPad3Spec(c2);
    if |code1| == |code2| {
      EmpIdParts(code1, c1);
      EmpIdParts(code2, c2);
      assert id1[3..3 + |code1|] != id2[3..3 + |code2|];
    } else if |code1| < |code2| {
      assert id1[3 + |code1|] == ZeroPad3(c1)[0];
      assert id2[3 + |code1|] == code2[|code1|];
    } else {
      assert id2[3 + |code2|] == ZeroPad3(c2)[0];
      assert id1[3 + |code2|] == code1[|code2|];
    }
  }

  /** Every code in the table, and "GEN", is a non-empty word of capital letters. */
  lemma CodesAreWords(dept: Option<string>)
    ensures IsUpperWord(DeptCode(dept))
  {
  }

  /** The table read backwards, code to department: a witness that no two departments share a code. */
  const CodeDepts: map<string, string> := map[
    "IRZ" := "Iron Zone",
    "SIN" := "Sinter Plant",
    "COP" := "Coke Oven Plant",
    "BLF" := "Blast Furnace",
    "SMS" := "Steel Melt Shop (SMS)",
    "LRF" := "Ladle Refining Furnace (LRF)",
    "VD" := "Vacuum Degassing (VD)",
    "CCM" := "Continuous Casting Machine (CCM)",
    "BLM" := "Blooming Mill",
    "BRM" := "Bar & Rod Mill (BRM)",
    "ANL" := "Annealing Unit",
    "BBU" := "Bright Bar Unit",
    "ASP" := "Air Separation Plant (ASP)",
    "CPP" := "Captive Power Plant (CPP)",
    "GAS" := "Gas Plant",
    "WTP" := "Water Treatment Plant",
    "WWT" := "Wastewater Treatment Plant",
    "LOG" := "Material Handling & Logistics",
    "HR" := "Human Resources (HR)",
    "FIN" := "Finance & Accounts",
    "SHE" := "Safety, Health & Environment (SHE)",
    "MNT" := "Maintenance Department",
    "PPC" := "Production Planning & Control (PPC)",
    "QAQ" := "Quality Assurance / Quality Control (QA/QC)",
    "IT" := "Information Technology (IT)",
    "ADM" := "Administration"
  ]

  /** CodeDeptsInvertsTable for a few departments at a time, in table order. */
  lemma InvertsTable1(d: string)
    requires d == "Iron Zone" || d == "Sinter Plant"
    ensures d in DeptCodes && DeptCodes[d] in CodeDepts && CodeDepts[DeptCodes[d]] == d
  {
    if d == "Iron Zone" {
      assert DeptCodes[d] == "IRZ";
      assert CodeDepts["IRZ"] == d;
    } else {
      assert DeptCodes[d] == "SIN";
      assert CodeDepts["SIN"] == d;
    }
  }

  lemma InvertsTable2(d: string)
    requires d == "Coke Oven Plant" || d == "Blast Furnace"
    ensures d in DeptCodes && DeptCodes[d] in CodeDepts && CodeDepts[DeptCodes[d]] == d
  {
    if d == "Coke Oven Plant" {
      assert DeptCodes[d] == "COP";
      assert CodeDepts["COP"] == d;
    } else {
      assert DeptCodes[d] == "BLF";
      assert CodeDepts["BLF"] == d;
    }
  }

  lemma InvertsTable3(d: string)
    requires d == "Steel Melt Shop (SMS)" || d == "Ladle Refining Furnace (LRF)"
    ensures d in DeptCodes && DeptCodes[d] in CodeDepts && CodeDepts[DeptCodes[d]] == d
  {
    if d == "Steel Melt Shop (SMS)" {
      assert DeptCodes[d] == "SMS";
      assert CodeDepts["SMS"] == d;
    } else {
      assert DeptCodes[d] == "LRF";
      assert CodeDepts["LRF"] == d;
    }
  }

  lemma InvertsTable4(d: string)
    requires d == "Vacuum Degassing (VD)" || d == "Continuous Casting Machine (CCM)" || d == "Blooming Mill"
    ensures d in DeptCodes && DeptCodes[d] in CodeDepts && CodeDepts[DeptCodes[d]] == d
  {
    if d == "Vacuum Degassing (VD)" {
      assert DeptCodes[d] == "VD";
      assert CodeDepts["VD"] == d;
    } else if d == "Continuous Casting Machine (CCM)" {
      assert DeptCodes[d] == "CCM";
      assert CodeDepts["CCM"] == d;
    } else {
      assert DeptCodes[d] == "BLM";
      assert CodeDepts["BLM"] == d;
    }
  }

  lemma InvertsTable5(d: string)
    requires d == "Bar & Rod Mill (BRM)" || d == "Annealing Unit" || d == "Bright Bar Unit"
    ensures d in DeptCodes && DeptCodes[d] in CodeDepts && CodeDepts[DeptCodes[d]] == d
  {
    if d == "Bar & Rod Mill (BRM)" {
      assert DeptCodes[d] == "BRM";
      assert CodeDepts["BRM"] == d;
    } else if d == "Annealing Unit" {
      assert DeptCodes[d] == "ANL";
      assert CodeDepts["ANL"] == d;
    } else {
      assert DeptCodes[d] == "BBU";
      assert CodeDepts["BBU"] == d;
    }
  }

  lemma InvertsTable6(d: string)
    requires d == "Air Separation Plant (ASP)" || d == "Captive Power Plant (CPP)" || d == "Gas Plant" || d == "Water Treatment Plant"
    ensures d in DeptCodes && DeptCodes[d] in CodeDepts && CodeDepts[DeptCodes[d]] == d
  {
    if d == "Air Separation Plant (ASP)" {
      assert DeptCodes[d] == "ASP";
      assert CodeDepts["ASP"] == d;
    } else if d == "Captive Power Plant (CPP)" {
      assert DeptCodes[d] == "CPP";
      assert CodeDepts["CPP"] == d;
    } else if d == "Gas Plant" {
      assert DeptCodes[d] == "GAS";
      assert CodeDepts["GAS"] == d;
    } else {
      assert DeptCodes[d] == "WTP";
      assert CodeDepts["WTP"] == d;
    }
  }

  lemma InvertsTable7(d: string)
    requires d == "Wastewater Treatment Plant" || d == "Material Handling & Logistics" || d == "Human Resources (HR)" || d == "Finance & Accounts"
    ensures d in DeptCodes && DeptCodes[d] in CodeDepts && CodeDepts[DeptCodes[d]] == d
  {
    if d == "Wastewater Treatment Plant" {
      assert DeptCodes[d] == "WWT";
      assert CodeDepts["WWT"] == d;
    } else if d == "Material Handling & Logistics" {
      assert DeptCodes[d] == "LOG";
      assert CodeDepts["LOG"] == d;
    } else if d == "Human Resources (HR)" {
      assert DeptCodes[d] == "HR";
      assert CodeDepts["HR"] == d;
    } else {
      assert DeptCodes[d] == "FIN";
      assert CodeDepts["FIN"] == d;
    }
  }

  lemma InvertsTable8(d: string)
    requires d == "Safety, Health & Environment (SHE)" || d == "Maintenance Department" || d == "Production Planning & Control (PPC)" || d == "Quality Assurance / Quality Control (QA/QC)" || d == "Information Technology (IT)" || d == "Administration"
    ensures d in DeptCodes && DeptCodes[d] in CodeDepts && CodeDepts[DeptCodes[d]] == d
  {
    if d == "Safety, Health & Environment (SHE)" {
      assert DeptCodes[d] == "SHE";
      assert CodeDepts["SHE"] == d;
    } else if d == "Maintenance Department" {
      assert DeptCodes[d] == "MNT";
      assert CodeDepts["MNT"] == d;
    } else if d == "Production Planning & Control (PPC)" {
      assert DeptCodes[d] == "PPC";
      assert CodeDepts["PPC"] == d;
    } else if d == "Quality Assurance / Quality Control (QA/QC)" {
      assert DeptCodes[d] == "QAQ";
      assert CodeDepts["QAQ"] == d;
    } else if d == "Information Technology (IT)" {
      assert DeptCodes[d] == "IT";
      assert CodeDepts["IT"] == d;
    } else {
      assert DeptCodes[d] == "ADM";
      assert CodeDepts["ADM"] == d;
    }
  }

  /** The table's keys, one by one. */
  lemma ListedNames(d: string)
    requires d in DeptCodes
    ensures || d == "Iron Zone"
      || d == "Sinter Plant"
      || d == "Coke Oven Plant"
      || d == "Blast Furnace"
      || d == "Steel Melt Shop (SMS)"
      || d == "Ladle Refining Furnace (LRF)"
      || d == "Vacuum Degassing (VD)"
      || d == "Continuous Casting Machine (CCM)"
      || d == "Blooming Mill"
      || d == "Bar & Rod Mill (BRM)"
      || d == "Annealing Unit"
      || d == "Bright Bar Unit"
      || d == "Air Separation Plant (ASP)"
      || d == "Captive Power Plant (CPP)"
      || d == "Gas Plant"
      || d == "Water Treatment Plant"
      || d == "Wastewater Treatment Plant"
      || d == "Material Handling & Logistics"
      || d == "Human Resources (HR)"
      || d == "Finance & Accounts"
      || d == "Safety, Health & Environment (SHE)"
      || d == "Maintenance Department"
      || d == "Production Planning & Control (PPC)"
      || d == "Quality Assurance / Quality Control (QA/QC)"
      || d == "Information Technology (IT)"
      || d == "Administration"
  {
  }

  /** CodeDepts undoes DeptCodes; checked over the table in 8 parts. */
  lemma CodeDeptsInvertsTable(d: string)
    requires d in DeptCodes
    ensures DeptCodes[d] in CodeDepts && CodeDepts[DeptCodes[d]] == d
  {
    ListedNames(d);
    if d == "Iron Zone" || d == "Sinter Plant" {
      InvertsTable1(d);
    } else if d == "Coke Oven Plant" || d == "Blast Furnace" {
      InvertsTable2(d);
    } else if d == "Steel Melt Shop (SMS)" || d == "Ladle Refining Furnace (LRF)" {
      InvertsTable3(d);
    } else if d == "Vacuum Degassing (VD)" || d == "Continuous Casting Machine (CCM)" || d == "Blooming Mill" {
      InvertsTable4(d);
    } else if d == "Bar & Rod Mill (BRM)" || d == "Annealing Unit" || d == "Bright Bar Unit" {
      InvertsTable5(d);
    } else if d == "Air Separation Plant (ASP)" || d == "Captive Power Plant (CPP)" || d == "Gas Plant" || d == "Water Treatment Plant" {
      InvertsTable6(d);
    } else if d == "Wastewater Treatment Plant" || d == "Material Handling & Logistics" || d == "Human Resources (HR)" || d == "Finance & Accounts" {
      InvertsTable7(d);
    } else {
      InvertsTable8(d);
    }
  }

  /** The table's codes are pairwise distinct, and none is "GEN". */
  lemma ListedCodesDistinct(d1: string, d2: string)
    requires d1 in DeptCodes && d2 in DeptCodes && d1 != d2
    ensures DeptCodes[d1] != DeptCodes[d2]
    ensures DeptCodes[d1] != GeneralCode
  {
    CodeDeptsInvertsTable(d1);
    CodeDeptsInvertsTable(d2);
    assert GeneralCode !in CodeDepts;
  }

  /** Within one department, distinct counts mint distinct ids. */
  lemma SameDepartmentDistinctCounts(dept: Option<string>, n1: nat, n2: nat)
    requires n1 != n2
    ensures MintId(dept, n1) != MintId(dept, n2)
  {
    EmpIdInjectiveInCount(DeptCode(dept), n1 + 1, n2 + 1);
  }

  /** Two different listed departments never mint the same id, whatever their counts. */
  lemma ListedDepartmentsNeverCollide(d1: string, d2: string, n1: nat, n2: nat)
    requires d1 in DeptCodes && d2 in DeptCodes && d1 != d2
    ensures MintId(Some(d1), n1) != MintId(Some(d2), n2)
  {
    ListedCodesDistinct(d1, d2);
    CodesAreWords(Some(d1));
    CodesAreWords(Some(d2));
    EmpIdInjectiveInCode(DeptCodes[d1], DeptCodes[d2], n1 + 1, n2 + 1);
  }

  /** Departments missing from the table all share "GEN", so their ids can coincide. */
  lemma UnlistedDepartmentsShareCode()
    ensures MintId(Some("Security"), 0) == MintId(Some("Canteen"), 0) == MintId(None, 0) == "JSWGEN001"
  {
    UnlistedExamples();
    GeneralIds();
  }

  /** The first two ids of the "GEN" code. */
  lemma GeneralIds()
    ensures EmpId(GeneralCode, 1) == "JSWGEN001" && EmpId(GeneralCode, 2) == "JSWGEN002"
  {
    assert Decimal(1) == "1" && Decimal(2) == "2";
  }

  /** Two departments the table does not list, and so take "GEN". */
  lemma UnlistedExamples()
    ensures DeptCode(Some("Security")) == DeptCode(Some("Canteen")) == GeneralCode
  {
  }

  /** An entry of the table as the format lays it out. */
  lemma MintIdFirstOfDepartment()
    ensures MintId(Some("Iron Zone"), 0) == "JSWIRZ001"
  {
    assert Decimal(1) == "1";
  }

  /** Counts past 999 keep all their digits. */
  lemma MintIdFourDigits()
    ensures MintId(Some("Vacuum Degassing (VD)"), 1233) == "JSWVD1234"
  {
    InvertsTable4("Vacuum Degassing (VD)");
    FourDigitPad();
  }

  lemma FourDigitPad()
    ensures ZeroPad3(1234) == "1234"
  {
    DecimalLength(1234);
    assert Decimal(1) == "1";
    assert Decimal(12) == "12";
    assert Decimal(123) == "123";
    assert Decimal(1234) == "1234";
  }
}
