/**
 * Turning one spreadsheet row of the INbreast annotation table into an
 * annotation record (dicom_annotation.py): cell cleaning, the
 * benign/malignant decision and the composite category string.
 */
module DicomAnnotation {
  import opened Base
  import opened Strings
  import Quota
  import Records

  /**
   * A spreadsheet cell as pandas delivers it. `Missing` is every value
   * `pd.isna` accepts (None, NaN, NaT) and, after cleaning, Python's `None`.
   * A number carries its value and its `str()` rendering; `Other` is any
   * other object (a date, say), kept with its `str()` rendering.
   */
  datatype Cell = Missing | Text(s: string) | Number(value: real, shown: string) | Other(shown: string)

  /**
   * `clean_value`: missing stays missing, text is stripped and becomes
   * missing when nothing is left, anything else is returned unchanged.
   * A cleaned text is never empty and never padded with whitespace.
   */
  function CleanValue(v: Cell): (r: Cell)
    ensures v.Missing? ==> r == Missing
    ensures v.Text? && Strip(v.s) == [] ==> r == Missing
    ensures v.Text? && Strip(v.s) != [] ==> r == Text(Strip(v.s))
    ensures v.Number? || v.Other? ==> r == v
    ensures r.Text? ==> r.s != [] && !IsSpace(r.s[0]) && !IsSpace(r.s[|r.s| - 1])
  {
    match v
    case Missing => Missing
    case Text(s) =>
      var cleaned := Strip(s);
      if cleaned == [] then Missing else Text(cleaned)
    case Number(_, _) => v
    case Other(_) => v
  }

  /** Cleaning a cleaned value changes nothing. */
  lemma CleanValueIdempotent(v: Cell)
    ensures CleanValue(CleanValue(v)) == CleanValue(v)
  {
    if v.Text? {
      StripIdempotent(v.s);
    }
  }

  /** Python's `str()` of a cleaned value; `None` prints as "None". */
  function Show(v: Cell): string
  {
    match v
    case Missing => "None"
    case Text(s) => s
    case Number(_, shown) => shown
    case Other(shown) => shown
  }

  datatype MassType = Benign | Malignant

  function MassName(m: MassType): string
  {
    match m
    case Benign => "Benign"
    case Malignant => "Malignant"
  }

  /**
   * The spreadsheet columns the annotation reads. A column read with
   * `row.get(...)` that the sheet lacks reads as `Missing`, which cleans
   * to the same value as the defaults the source passes.
   */
  datatype Row = Row(
    fileName: Cell,               // 'File Name'
    acr: Cell,                    // 'ACR' (breast density)
    birads: Cell,                 // 'Bi-Rads'
    laterality: Cell,             // 'Laterality'
    view: Cell,                   // 'View'
    acquisitionDate: Cell,        // 'Acquisition date'
    mass: Cell,                   // 'Mass '
    micros: Cell,                 // 'Micros '
    distortion: Cell,             // 'Distortion'
    asymmetry: Cell,              // 'Asymmetry'
    findingsNotes: Cell,          // 'Findings Notes (in Portuguese)'
    lesionAnnotationStatus: Cell  // 'Lesion Annotation Status'
  )

  /** A finding column is ticked when its cleaned value is exactly "X". */
  predicate Marked(c: Cell)
  {
    CleanValue(c) == Text("X")
  }

  /** The BI-RADS test on the cleaned value: a number of at least 4, or text starting with 4, 5 or 6. */
  predicate BiradsSuspicious(birads: Cell)
  {
    match birads
    case Number(v, _) => v >= 4.0
    case Text(s) => StartsWith(s, "4") || StartsWith(s, "5") || StartsWith(s, "6")
    case Missing => false
    case Other(_) => false
  }

  /** The lower-cased findings notes mention "benigno" or "normal". */
  predicate FindingsSayBenign(row: Row)
  {
    var findings := Lower(Show(CleanValue(row.findingsNotes)));
    Contains(findings, "benigno") || Contains(findings, "normal")
  }

  /** `get_mass_type`: no mass gives no type; otherwise BI-RADS decides unless the notes say benign or normal. */
  function GetMassType(row: Row): (r: Option<MassType>)
    ensures r == None <==> !Marked(row.mass)
    ensures r == Some(Malignant) ==> !FindingsSayBenign(row)
  {
    if !Marked(row.mass) then None
    else
      var isMalignant := BiradsSuspicious(CleanValue(row.birads)) && !FindingsSayBenign(row);
      Some(if isMalignant then Malignant else Benign)
  }

  /** Without a ticked mass column the type is `None`, whatever the BI-RADS value. */
  lemma NoMassIgnoresBirads(row: Row, birads: Cell)
    requires !Marked(row.mass)
    ensures GetMassType(row) == None
    ensures GetMassType(row.(birads := birads)) == None
  {
  }

  /** A numeric BI-RADS of at least 4 is malignant and below 4 benign, absent the findings override. */
  lemma NumericBirads(row: Row, v: real, shown: string)
    requires Marked(row.mass) && !FindingsSayBenign(row)
    requires row.birads == Number(v, shown)
    ensures GetMassType(row) == Some(if v >= 4.0 then Malignant else Benign)
  {
  }

  /**
   * A textual BI-RADS (such as "4a") is malignant exactly when its stripped
   * form starts with 4, 5 or 6, absent the findings override.
   */
  lemma TextBirads(row: Row, s: string)
    requires Marked(row.mass) && !FindingsSayBenign(row)
    requires row.birads == Text(s)
    ensures GetMassType(row) == Some(Malignant) <==>
      StartsWith(Strip(s), "4") || StartsWith(Strip(s), "5") || StartsWith(Strip(s), "6")
  {
  }

  /** No BI-RADS value, or one that is neither number nor text, gives benign. */
  lemma AbsentBiradsIsBenign(row: Row)
    requires Marked(row.mass)
    requires row.birads.Missing? || row.birads.Other?
    ensures GetMassType(row) == Some(Benign)
  {
  }

  /** Notes mentioning "benigno" or "normal" make a ticked mass benign. */
  lemma FindingsMakeBenign(row: Row)
    requires Marked(row.mass) && FindingsSayBenign(row)
    ensures GetMassType(row) == Some(Benign)
  {
  }

  /** The override does not look at the BI-RADS value at all. */
  lemma FindingsOverrideBirads(row: Row, birads: Cell)
    requires Marked(row.mass) && FindingsSayBenign(row)
    ensures GetMassType(row.(birads := birads)) == Some(Benign)
  {
    assert FindingsSayBenign(row.(birads := birads));
    FindingsMakeBenign(row.(birads := birads));
  }

  lemma LowerBenigno()
    ensures Lower("Benigno") == "benigno"
  {
  }

  /** Cleaned notes whose lower-cased text contains "benigno" say benign. */
  lemma NotesSayBenign(row: Row, notes: string)
    requires CleanValue(row.findingsNotes) == Text(notes)
    requires Contains(Lower(notes), "benigno")
    ensures FindingsSayBenign(row)
  {
  }

  /** The override is case-insensitive: notes mentioning "Benigno" make the mass benign. */
  lemma OverrideIgnoresCase(row: Row, before: string, after: string)
    requires Marked(row.mass)
    requires CleanValue(row.findingsNotes) == Text(before + "Benigno" + after)
    ensures GetMassType(row) == Some(Benign)
  {
    LowerKeepsOccurrence(before, "Benigno", after);
    LowerBenigno();
    NotesSayBenign(row, before + "Benigno" + after);
    FindingsMakeBenign(row);
  }

  predicate IsDigit(c: char)
  {
    '0' <= c <= '9'
  }

  predicate AllDigits(s: string)
  {
    forall k :: 0 <= k < |s| ==> IsDigit(s[k])
  }

  /** The value of one decimal digit character. */
  function DigitValue(c: char): (d: nat)
    ensures IsDigit(c) ==> d == c as int - '0' as int && d < 10
  {
    if IsDigit(c) then c as int - '0' as int else 0
  }

  /** The value of a string of decimal digits, most significant first. */
  function DigitsValue(s: string): nat
  {
    if s == [] then 0 else DigitsValue(s[..|s| - 1]) * 10 + DigitValue(s[|s| - 1])
  }

  /** The digits after the optional sign: a value, or `None` when empty or not all digits. */
  function ParseDigits(digits: string): (r: Option<nat>)
    ensures r.Some? <==> digits != [] && AllDigits(digits)
  {
    if digits != [] && AllDigits(digits) then Some(DigitsValue(digits)) else None
  }

  /**
   * Python's `int(s)` on a stripped string: an optional sign and decimal
   * digits, or a ValueError (`None`). A result is produced exactly for
   * a string of digits, or a sign followed by digits, and is their value
   * with that sign.
   */
  function ParseInt(s: string): (r: Option<int>)
    ensures r.Some? ==> |s| > 0 && IsDigit(s[|s| - 1])
    ensures r.Some? ==> |s| > 0 && AllDigits(s[1..]) && (IsDigit(s[0]) || (|s| > 1 && (s[0] == '-' || s[0] == '+')))
    ensures r.Some? && |s| > 0 && IsDigit(s[0]) ==> r.value >= 0
    ensures |s| > 0 && AllDigits(s) ==> r == Some(DigitsValue(s) as int)
    ensures |s| > 1 && s[0] == '-' && AllDigits(s[1..]) ==> r == Some(-(DigitsValue(s[1..]) as int))
    ensures |s| > 1 && s[0] == '+' && AllDigits(s[1..]) ==> r == Some(DigitsValue(s[1..]) as int)
  {
    var negative := |s| > 0 && s[0] == '-';
    var digits := if |s| > 0 && (s[0] == '+' || s[0] == '-') then s[1..] else s;
    var v := ParseDigits(digits);
    if v.Some? then
      assert IsDigit(s[|s| - 1]) by {
        assert IsDigit(digits[|digits| - 1]);
      }
      Some(if negative then 0 - v.value as int else v.value)
    else None
  }

  /** The character of a decimal digit. */
  function DigitChar(d: nat): (c: char)
    requires d < 10
    ensures IsDigit(c) && c as int - '0' as int == d
  {
    ('0' as int + d) as char
  }

  /** Python's `str(n)` of a natural number: its decimal digits, most significant first. */
  function Decimal(n: nat): (r: string)
    ensures |r| > 0 && AllDigits(r)
    decreases n
  {
    (if n < 10 then "" else Decimal(n / 10)) + [DigitChar(n % 10)]
  }

  /** Appending a digit multiplies the value so far by ten and adds the digit. */
  lemma DigitsValueSnoc(init: string, c: char)
    requires IsDigit(c)
    ensures DigitsValue(init + [c]) == DigitsValue(init) * 10 + (c as int - '0' as int)
  {
    assert (init + [c])[..|init|] == init;
  }

  lemma DivModTen(n: nat, q: nat, r: nat)
    requires q == n / 10 && r == n % 10
    ensures n == q * 10 + r && r < 10
    ensures n < 10 ==> q == 0
  {
  }

  lemma {:induction false} DigitsValueOfDecimal(n: nat)
    ensures DigitsValue(Decimal(n)) == n
    decreases n
  {
    var q, r := n / 10, n % 10;
    DivModTen(n, q, r);
    var c := DigitChar(r);
    if n < 10 {
      assert Decimal(n) == [] + [c];
      DigitsValueSnoc([], c);
    } else {
      var init := Decimal(q);
      assert Decimal(n) == init + [c];
      DigitsValueOfDecimal(q);
      DigitsValueSnoc(init, c);
    }
  }

  /** `int(str(n)) == n` and `int("-" + str(n)) == -n`: parsing inverts printing. */
  lemma ParseIntOfDecimal(n: nat)
    ensures ParseInt(Decimal(n)) == Some(n)
    ensures ParseInt("-" + Decimal(n)) == Some(-(n as int))
    ensures ParseInt("+" + Decimal(n)) == Some(n)
  {
    var d := Decimal(n);
    DigitsValueOfDecimal(n);
    assert ParseInt(d) == Some(n) by {
      UnsignedParse(d);
    }
    assert ParseInt("-" + d) == Some(-(n as int)) by {
      NegativeParse(d);
    }
    assert ParseInt("+" + d) == Some(n) by {
      PositiveParse(d);
    }
  }

  lemma UnsignedParse(d: string)
    requires |d| > 0 && AllDigits(d)
    ensures ParseInt(d) == Some(DigitsValue(d) as int)
  {
    assert IsDigit(d[0]);
    assert ParseDigits(d) == Some(DigitsValue(d));
  }

  lemma NegativeParse(d: string)
    requires |d| > 0 && AllDigits(d)
    ensures ParseInt("-" + d) == Some(-(DigitsValue(d) as int))
  {
    SignSplit("-", d);
    assert ParseDigits(d) == Some(DigitsValue(d));
  }

  lemma PositiveParse(d: string)
    requires |d| > 0 && AllDigits(d)
    ensures ParseInt("+" + d) == Some(DigitsValue(d) as int)
  {
    SignSplit("+", d);
    assert ParseDigits(d) == Some(DigitsValue(d));
  }

  lemma SignSplit(sign: string, d: string)
    requires |sign| == 1
    ensures |sign + d| > 0 && (sign + d)[0] == sign[0] && (sign + d)[1..] == d
  {
    assert (sign + d)[1..] == d;
  }

  /** Python's `int(x)` on a float: truncation toward zero. */
  function TruncateTowardZero(v: real): (n: int)
    ensures v >= 0.0 ==> n as real <= v < n as real + 1.0
    ensures v < 0.0 ==> n as real - 1.0 < v <= n as real
  {
    if v >= 0.0 then v.Floor else -((-v).Floor)
  }

  /** Why building an annotation raised instead of returning. */
  datatype RowError =
    | BadFileName  // `int(float(...))` of the 'File Name' cell raised
    | BadDensity   // `int(density)` raised

  /**
   * `int(density) if density else None`: falsy values (None, 0) give
   * `None`; a number is truncated toward zero; text is parsed by `int()`,
   * and only text `int()` rejects, or a value of any other type, raises.
   */
  function DensityValue(density: Cell): (r: Result<Option<int>, RowError>)
    ensures r.Err? <==> density.Other? || (density.Text? && ParseInt(density.s).None?)
    ensures r == Ok(None) <==> density.Missing? || (density.Number? && density.value == 0.0)
    ensures r.Err? ==> r.error == BadDensity
  {
    match density
    case Missing => Ok(None)
    case Number(v, _) => if v == 0.0 then Ok(None) else Ok(Some(TruncateTowardZero(v)))
    case Text(s) => if ParseInt(s).Some? then Ok(Some(ParseInt(s).value)) else Err(BadDensity)
    case Other(_) => Err(BadDensity)
  }

  /** The spreadsheet's density digits read back as their value; a whole number reads as itself. */
  lemma DensityOfDecimal(n: nat, shown: string)
    ensures DensityValue(Text(Decimal(n))) == Ok(Some(n))
    ensures n > 0 ==> DensityValue(Number(n as real, shown)) == Ok(Some(n))
  {
    var d := Decimal(n);
    assert DensityValue(Text(d)) == Ok(Some(n)) by {
      DigitsValueOfDecimal(n);
      assert ParseInt(d) == Some(n);
    }
    if n > 0 {
      assert DensityValue(Number(n as real, shown)) == Ok(Some(n)) by {
        WholeTruncates(n);
      }
    }
  }

  lemma WholeTruncates(n: nat)
    ensures TruncateTowardZero(n as real) == n
  {
    assert (n as real).Floor == n;
  }

  /**
   * `f"Density{density}+{mass_type}"`, or `f"Density{density}"` when there
   * is no mass: "Density", then the density as `str()` prints it, then,
   * only with a mass type, '+' and the type's name.
   */
  function Category(density: Cell, massType: Option<MassType>): (r: string)
    ensures |r| >= 7 + |Show(density)|
    ensures r[..7] == "Density" && r[7..7 + |Show(density)|] == Show(density)
    ensures massType.None? ==> |r| == 7 + |Show(density)|
    ensures massType.Some? ==> r[7 + |Show(density)|..] == "+" + MassName(massType.value)
  {
    if massType.Some? then "Density" + Show(density) + "+" + MassName(massType.value)
    else "Density" + Show(density)
  }

  /** What `get_dicom_info` reports about the image, as far as the annotation copies it. */
  datatype ImageInfo = ImageInfo(width: int, height: int, spacing: seq<real>)

  datatype Classification = Classification(density: Option<int>, massType: Option<MassType>, category: string, birads: Cell)

  datatype Exam = Exam(laterality: Cell, view: Cell, date: string)

  datatype Findings = Findings(
    mass: bool, calcification: bool, distortion: bool, asymmetry: bool,
    description: Cell, lesionAnnotation: Cell)

  datatype Annotation = Annotation(
    filename: string, image: ImageInfo, classification: Classification, exam: Exam, findings: Findings)

  /** The outcome of `create_annotation`: `None`, a record, or an exception. */
  datatype Built = NoImage | Created(annotation: Annotation) | Raised(error: RowError)

  /**
   * `create_annotation`. `fileNameOf` stands for `str(int(float(...)))`
   * applied to the cleaned 'File Name' cell (`None` when that raises).
   * Without image information nothing is built. Otherwise the file name is
   * converted first and the density second, and either raises when it
   * cannot be converted. A built record carries the converted file name and
   * density, the mass type of `GetMassType`, the category of `Category`,
   * the four ticked-"X" findings flags and the cleaned remaining cells.
   */
  function CreateAnnotation(row: Row, imgInfo: Option<ImageInfo>, fileNameOf: Cell -> Option<string>): (r: Built)
    ensures r.NoImage? <==> imgInfo.None?
    ensures r == Raised(BadFileName) <==> imgInfo.Some? && fileNameOf(CleanValue(row.fileName)).None?
    ensures r == Raised(BadDensity) <==>
      imgInfo.Some? && fileNameOf(CleanValue(row.fileName)).Some? && DensityValue(CleanValue(row.acr)).Err?
    ensures imgInfo.Some? && (fileNameOf(CleanValue(row.fileName)).None? || DensityValue(CleanValue(row.acr)).Err?)
      ==> r.Raised?
    ensures r.Raised? ==> fileNameOf(CleanValue(row.fileName)).None? || DensityValue(CleanValue(row.acr)).Err?
    ensures r.Created? ==>
      && r.annotation.filename == fileNameOf(CleanValue(row.fileName)).value
      && r.annotation.image == imgInfo.value
      && r.annotation.classification.density == DensityValue(CleanValue(row.acr)).value
      && r.annotation.classification.massType == GetMassType(row)
      && r.annotation.classification.category == Category(CleanValue(row.acr), GetMassType(row))
      && r.annotation.classification.birads == CleanValue(row.birads)
      && r.annotation.exam == Exam(CleanValue(row.laterality), CleanValue(row.view), Show(CleanValue(row.acquisitionDate)))
      && r.annotation.findings.mass == Marked(row.mass)
      && r.annotation.findings.calcification == Marked(row.micros)
      && r.annotation.findings.distortion == Marked(row.distortion)
      && r.annotation.findings.asymmetry == Marked(row.asymmetry)
      && r.annotation.findings.description == CleanValue(row.findingsNotes)
      && r.annotation.findings.lesionAnnotation == CleanValue(row.lesionAnnotationStatus)
  {
    if imgInfo.None? then NoImage
    else
      var info := imgInfo.value;
      var density := CleanValue(row.acr);
      var massType := GetMassType(row);
      var category := Category(density, massType);
      var filename := fileNameOf(CleanValue(row.fileName));
      if filename.None? then Raised(BadFileName)
      else
        var densityValue := DensityValue(density);
        if densityValue.Err? then Raised(BadDensity)
        else
          Created(Annotation(
            filename.value,
            info,
            Classification(densityValue.value, massType, category, CleanValue(row.birads)),
            Exam(CleanValue(row.laterality), CleanValue(row.view), Show(CleanValue(row.acquisitionDate))),
            Findings(
              CleanValue(row.mass) == Text("X"),
              CleanValue(row.micros) == Text("X"),
              CleanValue(row.distortion) == Text("X"),
              CleanValue(row.asymmetry) == Text("X"),
              CleanValue(row.findingsNotes),
              CleanValue(row.lesionAnnotationStatus))))
  }

  /**
   * In a built record the mass flag, the presence of a mass type and a '+'
   * in the category agree (the last one provided the density text itself
   * holds no '+').
   */
  lemma MassFlagAgreement(row: Row, imgInfo: Option<ImageInfo>, fileNameOf: Cell -> Option<string>)
    requires CreateAnnotation(row, imgInfo, fileNameOf).Created?
    ensures var a := CreateAnnotation(row, imgInfo, fileNameOf).annotation;
      && (a.findings.mass <==> a.classification.massType.Some?)
      && ('+' !in Show(CleanValue(row.acr)) ==> (a.findings.mass <==> '+' in a.classification.category))
  {
    CategoryMarksMass(CleanValue(row.acr), GetMassType(row));
  }

  /** A category names a mass type exactly when it holds a '+', unless the density text has one. */
  lemma CategoryMarksMass(density: Cell, massType: Option<MassType>)
    ensures massType.Some? ==> '+' in Category(density, massType)
    ensures massType.None? && '+' !in Show(density) ==> '+' !in Category(density, massType)
  {
    var d := Show(density);
    if massType.Some? {
      var name := MassName(massType.value);
      assert ("Density" + d + "+" + name)[7 + |d|] == '+';
    } else {
      assert '+' !in "Density";
    }
  }

  /** The record written to the annotations file for a built annotation. */
  function ToRecord(a: Annotation): Records.Record
  {
    Records.Record(a.filename, Some(Records.ClassInfo(Some(a.classification.category), Some(a.classification.density))))
  }

  /** In a string `int()` accepts, a '+' can only be the leading sign. */
  lemma PlusOnlyAsSign(s: string)
    requires ParseInt(s).Some? && '+' in s
    ensures s[0] == '+'
  {
    forall j | 1 <= j < |s|
      ensures IsDigit(s[j])
    {
      assert s[1..][j - 1] == s[j];
    }
  }

  /**
   * Without a mass type the category is "Density" and the density, which
   * is no quota category: it has no '+', or, for density text `int()`
   * accepts, '+' only as the sign right after "Density".
   */
  lemma NoMassCategoryOutsideQuota(density: Cell)
    requires density.Missing? || (density.Text? && ParseInt(density.s).Some?) || (density.Number? && '+' !in density.shown)
    ensures Category(density, None) !in Quota.Keys(Quota.ExpectedCounts)
  {
    var d := Show(density);
    var c := Category(density, None);
    if '+' in d {
      assert '+' !in "None";
      PlusOnlyAsSign(density.s);
      assert c[7] == '+';
    } else {
      CategoryMarksMass(density, None);
    }
    Quota.NotQuotaKey(c);
  }

  /**
   * Only rows with a ticked mass column can reach the converter: every
   * quota category contains '+', and without a mass the category is
   * "Density" and the density, which is none of them. A number's printed
   * form is a parameter here, so for a number it is required not to hold
   * a '+'.
   */
  lemma QuotaCategoriesHaveMass(row: Row, imgInfo: Option<ImageInfo>, fileNameOf: Cell -> Option<string>)
    requires CreateAnnotation(row, imgInfo, fileNameOf).Created?
    requires CleanValue(row.acr).Number? ==> '+' !in CleanValue(row.acr).shown
    requires Records.CategoryOf(ToRecord(CreateAnnotation(row, imgInfo, fileNameOf).annotation)).value
      in Quota.Keys(Quota.ExpectedCounts)
    ensures CreateAnnotation(row, imgInfo, fileNameOf).annotation.findings.mass
  {
    var density := CleanValue(row.acr);
    assert DensityValue(density).Ok?;
    NoMassCategoryOutsideQuota(density);
    MassFlagAgreement(row, imgInfo, fileNameOf);
  }
}
