/** The name validator: it classifies a subject's files as the analysis
    does, then checks every file that is not a merged day, in a fixed
    order, reporting at most one problem per file. */
module Validator {
  import opened Results
  import opened Strings
  import opened Naming
  import opened Regex

  /** `[0-9]{5}_[0-9]{4}` then `_*-*-*_*-*-*_*` */
  const Format1Fixed: seq<Atom> := Digits(5) + Lits("_") + Digits(4)
  const Format1Regex: seq<Atom> := Format1Fixed + Stars("_--_--_")

  /** `[0-9]{5}_[0-9]{4}__` then `_*-*-*` */
  const Format2Fixed: seq<Atom> := Digits(5) + Lits("_") + Digits(4) + Lits("__")
  const Format2Regex: seq<Atom> := Format2Fixed + Stars("_--")

  /** `BPCR01-[0-9]{4}-[0-9]{3}_` and the cohort, then `_*-*-*`; the cohort
      name is pasted into the pattern as plain text. */
  function Format3Fixed(tId: string): seq<Atom> {
    Lits("BPCR01-") + Digits(4) + Lits("-") + Digits(3) + Lits("_") + Lits(tId)
  }

  function Format3Regex(tId: string): seq<Atom> {
    Format3Fixed(tId) + Stars("_--")
  }

  function NameRegex(f: Format, tId: string): seq<Atom> {
    match f
    case Format1 => Format1Regex
    case Format2 => Format2Regex
    case Format3 => Format3Regex(tId)
  }

  /** The outcome of checking one file name. */
  datatype Verdict = Ignored | SpaceError | PartError | FormatError | Accepted

  /** Spellings that mark a data-sheet file, which is never checked. */
  const SheetMarkers: seq<string> := ["DataSheet", "Datasheet", "datasheet", "Data Sheet"]

  predicate IsDataSheet(name: string) {
    exists k :: 0 <= k < |SheetMarkers| && Contains(name, SheetMarkers[k])
  }

  predicate IsError(v: Verdict) {
    v == SpaceError || v == PartError || v == FormatError
  }

  /** The checks for one file, in the order they are made; the first that
      applies decides. */
  function CheckFile(f: Format, tId: string, name: string): (v: Verdict)
    ensures v == Ignored <==> IsDataSheet(name)
    ensures v == Accepted || v == FormatError ==> !Contains(name, " ") && !Contains(name, "-part")
    ensures v == SpaceError <==> !IsDataSheet(name) && Contains(name, " ")
    ensures v == PartError <==> !IsDataSheet(name) && !Contains(name, " ") && Contains(name, "-part")
    ensures v == Accepted <==> !IsDataSheet(name) && !Contains(name, " ") && !Contains(name, "-part")
                               && MatchPrefix(NameRegex(f, tId), name)
  {
    if IsDataSheet(name) then Ignored
    else if Contains(name, " ") then SpaceError
    else if Contains(name, "-part") then PartError
    else if MatchPrefix(NameRegex(f, tId), name) then Accepted
    else FormatError
  }

  /** A file-name check and its outcome. */
  datatype FileReport = FileReport(name: string, verdict: Verdict)

  /** What the validator reports for one subject. */
  datatype SubjectReport = NoReadableData | Checked(format: Format, files: seq<FileReport>)

  /** The names that are not merged days. */
  function Unmerged(names: seq<string>): (r: seq<string>)
    ensures forall n :: n in r <==> n in names && !EndsWith(n, "_full.csv")
    ensures |r| <= |names|
    decreases |names|
  {
    if |names| == 0 then []
    else
      assert names == [names[0]] + names[1..];
      (if EndsWith(names[0], "_full.csv") then [] else [names[0]]) + Unmerged(names[1..])
  }

  /** A subject: classified over all its `.csv` names, and when a format is
      found, every name that is not a merged day is checked. */
  function ValidateSubject(names: seq<string>, tId: string): (r: SubjectReport)
    ensures r.NoReadableData? <==> forall g: Format :: !AnyMatch(names, Pattern(g, tId))
    ensures r.Checked? ==> AnyMatch(names, Pattern(r.format, tId))
    ensures r.Checked? ==> forall g: Format :: Rank(g) > Rank(r.format) ==> !AnyMatch(names, Pattern(g, tId))
    ensures r.Checked? ==> |r.files| == |Unmerged(names)|
    ensures r.Checked? ==> forall i :: 0 <= i < |r.files| ==>
              r.files[i] == FileReport(Unmerged(names)[i], CheckFile(r.format, tId, Unmerged(names)[i]))
  {
    match DetectFormat(names, tId)
    case None => NoReadableData
    case Some(f) =>
      var todo := Unmerged(names);
      Checked(f, seq(|todo|, i requires 0 <= i < |todo| => FileReport(todo[i], CheckFile(f, tId, todo[i]))))
  }

  /** Merged days are never checked, and every other name is. */
  lemma ValidateCoversUnmerged(names: seq<string>, tId: string, n: string)
    requires ValidateSubject(names, tId).Checked?
    ensures (exists i :: 0 <= i < |ValidateSubject(names, tId).files| && ValidateSubject(names, tId).files[i].name == n)
            <==> n in names && !EndsWith(n, "_full.csv")
  {
    var r := ValidateSubject(names, tId);
    var todo := Unmerged(names);
    if n in names && !EndsWith(n, "_full.csv") {
      assert n in todo;
      var i :| 0 <= i < |todo| && todo[i] == n;
      assert r.files[i].name == n;
    }
    if exists i :: 0 <= i < |r.files| && r.files[i].name == n {
      var i :| 0 <= i < |r.files| && r.files[i].name == n;
      assert todo[i] in todo;
    }
  }

  /** A data-sheet name is never flagged, even with a space in it. */
  lemma DataSheetNeverFlagged(f: Format, tId: string, name: string, k: nat)
    requires k < |SheetMarkers| && Contains(name, SheetMarkers[k])
    ensures !IsError(CheckFile(f, tId, name))
  {
  }

  /** A name with a space, not a data sheet, gets the space error and no
      other, whatever the format. */
  lemma SpaceErrorOnly(f: Format, g: Format, tId: string, name: string)
    requires Contains(name, " ") && !IsDataSheet(name)
    ensures CheckFile(f, tId, name) == SpaceError == CheckFile(g, tId, name)
  {
  }

  /** The Format 1 check is a fixed prefix test: five digits, `_`, four
      digits; the starred rest of the pattern matches anything. */
  lemma Format1Check(name: string)
    ensures MatchPrefix(Format1Regex, name) <==>
      |name| >= 10 && AllDigits(name[..5]) && name[5] == '_' && AllDigits(name[6..10])
  {
    FixedMatch(Format1Fixed, "_--_--_", name);
    Format1Fits(name);
  }

  lemma Format1Fits(name: string)
    ensures Fits(Format1Fixed, name) <==>
      |name| >= 10 && AllDigits(name[..5]) && name[5] == '_' && AllDigits(name[6..10])
  {
    FitsConcat(Digits(5) + Lits("_"), Digits(4), name);
    FitsConcat(Digits(5), Lits("_"), name);
    FitsDigits(5, name);
    if |name| >= 10 {
      FitsLits("_", name[5..]);
      FitsDigits(4, name[6..]);
      assert name[6..][..4] == name[6..10];
    }
  }

  /** The fixed part of every name pattern is made of digits and literals,
      so the trailing stars leave a prefix test. */
  lemma FixedMatch(fixed: seq<Atom>, stars: string, name: string)
    requires forall k :: 0 <= k < |fixed| ==> fixed[k].Digit? || fixed[k].Lit?
    ensures MatchPrefix(fixed + Stars(stars), name) <==> Fits(fixed, name)
  {
    FixedThenStars(fixed, Stars(stars), name);
  }

  /** The Format 2 check: five digits, `_`, four digits, `__`. */
  lemma Format2Check(name: string)
    ensures MatchPrefix(Format2Regex, name) <==>
      |name| >= 12 && AllDigits(name[..5]) && name[5] == '_' && AllDigits(name[6..10])
      && name[10] == '_' && name[11] == '_'
  {
    FixedMatch(Format2Fixed, "_--", name);
    assert Format2Fixed == Format1Fixed + Lits("__");
    FitsConcat(Format1Fixed, Lits("__"), name);
    Format1Fits(name);
    if |name| >= 12 {
      FitsLits("__", name[10..]);
    }
  }

  lemma Format3Head(name: string)
    ensures Fits(Lits("BPCR01-") + Digits(4), name) <==>
      |name| >= 11 && StartsWith(name, "BPCR01-") && AllDigits(name[7..11])
  {
    FitsConcat(Lits("BPCR01-"), Digits(4), name);
    FitsLits("BPCR01-", name);
    if |name| >= 11 {
      FitsDigits(4, name[7..]);
      assert name[7..][..4] == name[7..11];
    }
  }

  lemma Format3Middle(name: string)
    ensures Fits(Lits("BPCR01-") + Digits(4) + Lits("-") + Digits(3) + Lits("_"), name) <==>
      |name| >= 16 && StartsWith(name, "BPCR01-") && AllDigits(name[7..11]) && name[11] == '-'
      && AllDigits(name[12..15]) && name[15] == '_'
  {
    var b := Lits("BPCR01-") + Digits(4);
    var c := b + Lits("-");
    var d := c + Digits(3);
    FitsConcat(d, Lits("_"), name);
    FitsConcat(c, Digits(3), name);
    FitsConcat(b, Lits("-"), name);
    Format3Head(name);
    if |name| >= 16 {
      FitsLits("-", name[11..]);
      FitsDigits(3, name[12..]);
      FitsLits("_", name[15..]);
      assert name[12..][..3] == name[12..15];
    }
  }

  /** The Format 3 check: `BPCR01-`, four digits, `-`, three digits, `_`,
      then the cohort name. */
  lemma Format3Check(name: string, tId: string)
    ensures MatchPrefix(Format3Regex(tId), name) <==>
      |name| >= 16 && StartsWith(name, "BPCR01-") && AllDigits(name[7..11]) && name[11] == '-'
      && AllDigits(name[12..15]) && name[15] == '_' && StartsWith(name[16..], tId)
  {
    var e := Lits("BPCR01-") + Digits(4) + Lits("-") + Digits(3) + Lits("_");
    assert Format3Fixed(tId) == e + Lits(tId);
    assert |e| == 16;
    FixedMatch(Format3Fixed(tId), "_--", name);
    FitsConcat(e, Lits(tId), name);
    Format3Middle(name);
    if |name| >= 16 {
      FitsLits(tId, name[16..]);
    }
  }

  /** A Format 1 file that clears the first three checks is accepted exactly
      when it starts with five digits, an underscore and four digits. */
  lemma Format1Verdict(tId: string, name: string)
    requires !IsDataSheet(name) && !Contains(name, " ") && !Contains(name, "-part")
    ensures CheckFile(Format1, tId, name) == Accepted <==>
      |name| >= 10 && AllDigits(name[..5]) && name[5] == '_' && AllDigits(name[6..10])
  {
    Format1Check(name);
  }

  /** The same for Format 2: the Format 1 prefix followed by two underscores. */
  lemma Format2Verdict(tId: string, name: string)
    requires !IsDataSheet(name) && !Contains(name, " ") && !Contains(name, "-part")
    ensures CheckFile(Format2, tId, name) == Accepted <==>
      |name| >= 12 && AllDigits(name[..5]) && name[5] == '_' && AllDigits(name[6..10])
      && name[10] == '_' && name[11] == '_'
  {
    Format2Check(name);
  }

  /** The same for Format 3: the cohort prefix, two digit groups and the
      subject's id. */
  lemma Format3Verdict(tId: string, name: string)
    requires !IsDataSheet(name) && !Contains(name, " ") && !Contains(name, "-part")
    ensures CheckFile(Format3, tId, name) == Accepted <==>
      |name| >= 16 && StartsWith(name, "BPCR01-") && AllDigits(name[7..11]) && name[11] == '-'
      && AllDigits(name[12..15]) && name[15] == '_' && StartsWith(name[16..], tId)
  {
    Format3Check(name, tId);
  }
}
