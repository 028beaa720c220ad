/** The DICOM source's file-name classifier `_pathMightBeDicom`
    (sources/dicom/large_image_source_dicom/__init__.py:247-262): a name is
    taken for a DICOM file when its extension is one the source claims, when
    it has the shape of a DICOM UID (section 9.1 of DICOM PS3.5: dotted
    decimal components without leading zeros, at most 64 characters), or
    when it is `DCM_` followed by Unicode decimal digits. */
module DicomPath {
  import opened Strings

  /** The extensions the source claims; its `None` key never equals a
      string. */
  predicate IsDicomExtension(e: string) {
    e == "dcm" || e == "dic" || e == "dicom"
  }

  /** The longest name the UID rule accepts. */
  const MaxUidLength := 64

  /** `os.path.splitext(name)[-1][1:]`: the extension without its dot. */
  function Extension(name: string): (e: string)
    ensures '.' !in e && '/' !in e
    ensures EndsWith(name, e)
  {
    var (root, ext) := SplitExt(name);
    assert root + ext == name;
    if |ext| == 0 then [] else ext[1..]
  }

  /** The text `re.match('^P$', s)` tests `P` against: Python's `$` also
      matches just before one final newline. */
  function BeforeFinalNewline(s: string): (r: string)
    ensures r <= s && |s| - 1 <= |r|
    ensures |r| < |s| <==> |s| > 0 && s[|s| - 1] == '\n'
  {
    if |s| > 0 && s[|s| - 1] == '\n' then s[..|s| - 1] else s
  }

  /** The UID shape: two or more canonical decimal components joined by
      '.'. */
  predicate IsUid(s: string) {
    var parts := Split(s, '.');
    |parts| >= 2 && forall i | 0 <= i < |parts| :: IsCanonicalNumeral(parts[i])
  }

  /** `n` is one of the ten code points from the digit zero `z`. */
  predicate Run(n: int, z: int) {
    z <= n < z + 10
  }

  /** A character `\d` matches in a `str` pattern: a Unicode decimal digit
      (general category Nd, Unicode 15.0).  The decimal digits come in runs
      of ten, each named here by the code point of its zero. */
  predicate IsDecimal(c: char) {
    var n := c as int;
    || Run(n, 0x30) || Run(n, 0x660) || Run(n, 0x6f0) || Run(n, 0x7c0) || Run(n, 0x966)
    || Run(n, 0x9e6) || Run(n, 0xa66) || Run(n, 0xae6) || Run(n, 0xb66) || Run(n, 0xbe6)
    || Run(n, 0xc66) || Run(n, 0xce6) || Run(n, 0xd66) || Run(n, 0xde6) || Run(n, 0xe50)
    || Run(n, 0xed0) || Run(n, 0xf20) || Run(n, 0x1040) || Run(n, 0x1090) || Run(n, 0x17e0)
    || Run(n, 0x1810) || Run(n, 0x1946) || Run(n, 0x19d0) || Run(n, 0x1a80) || Run(n, 0x1a90)
    || Run(n, 0x1b50) || Run(n, 0x1bb0) || Run(n, 0x1c40) || Run(n, 0x1c50) || Run(n, 0xa620)
    || Run(n, 0xa8d0) || Run(n, 0xa900) || Run(n, 0xa9d0) || Run(n, 0xa9f0) || Run(n, 0xaa50)
    || Run(n, 0xabf0) || Run(n, 0xff10) || Run(n, 0x104a0) || Run(n, 0x10d30) || Run(n, 0x11066)
    || Run(n, 0x110f0) || Run(n, 0x11136) || Run(n, 0x111d0) || Run(n, 0x112f0) || Run(n, 0x11450)
    || Run(n, 0x114d0) || Run(n, 0x11650) || Run(n, 0x116c0) || Run(n, 0x11730) || Run(n, 0x118e0)
    || Run(n, 0x11950) || Run(n, 0x11c50) || Run(n, 0x11d50) || Run(n, 0x11da0) || Run(n, 0x11f50)
    || Run(n, 0x16a60) || Run(n, 0x16ac0) || Run(n, 0x16b50) || Run(n, 0x1d7ce) || Run(n, 0x1d7d8)
    || Run(n, 0x1d7e2) || Run(n, 0x1d7ec) || Run(n, 0x1d7f6) || Run(n, 0x1e140) || Run(n, 0x1e2f0)
    || Run(n, 0x1e4f0) || Run(n, 0x1e950) || Run(n, 0x1fbf0)
  }

  /** `DCM_` followed by one or more Unicode decimal digits. */
  predicate IsDcmName(s: string) {
    |s| > 4 && s[..4] == "DCM_" && forall i | 4 <= i < |s| :: IsDecimal(s[i])
  }

  /** The classifier, applied to the final component of `path`.  An empty
      final component, as for a path ending in a separator, is never taken
      for a DICOM file. */
  function MightBeDicom(path: string): (r: bool)
    ensures r ==> Basename(path) != ""
  {
    var name := Basename(path);
    || IsDicomExtension(Extension(name))
    || (IsUid(BeforeFinalNewline(name)) && |name| <= MaxUidLength)
    || IsDcmName(BeforeFinalNewline(name))
  }

  /** Every ASCII digit is a decimal digit. */
  lemma AsciiDecimal(c: char)
    requires IsDigit(c)
    ensures IsDecimal(c)
  {
    assert Run(c as int, 0x30);
  }

  /** The numerals of a list of numbers. */
  function Numerals(ns: seq<nat>): (r: seq<string>)
    ensures |r| == |ns|
    ensures forall i | 0 <= i < |ns| :: r[i] == NatToString(ns[i])
  {
    seq(|ns|, i requires 0 <= i < |ns| => NatToString(ns[i]))
  }

  lemma BasenameAfterSlash(dir: string, name: string)
    requires '/' !in name
    ensures Basename(dir + "/" + name) == name
  {
    var p := dir + "/" + name;
    assert p[|dir|] == '/';
    assert forall j | |dir| < j < |p| :: p[j] == name[j - |dir| - 1];
    assert p[|dir| + 1..] == name;
  }

  /** Only the final path component matters. */
  lemma ClassifiesBasename(dir: string, name: string)
    requires '/' !in name
    ensures MightBeDicom(dir + "/" + name) <==> MightBeDicom(name)
  {
    BasenameAfterSlash(dir, name);
    assert LastIndexOf(name, '/') == -1;
    assert Basename(name) == name;
  }

  predicate DigitsAndDots(s: string) {
    forall i | 0 <= i < |s| :: IsDigit(s[i]) || s[i] == '.'
  }

  /** A name made only of digits and dots carries none of the claimed
      extensions, and is no `DCM_` name. */
  lemma DigitsAndDotsOnly(name: string)
    requires DigitsAndDots(name)
    ensures !IsDicomExtension(Extension(name))
    ensures !IsDcmName(BeforeFinalNewline(name))
  {
    NoLetterExtension(name);
    var b := BeforeFinalNewline(name);
    if |b| > 4 {
      assert b[..4][0] == b[0] == name[0];
    }
  }

  /** Each claimed extension starts with the letter `d`, which a name of
      digits and dots cannot end in. */
  lemma NoLetterExtension(name: string)
    requires DigitsAndDots(name)
    ensures !IsDicomExtension(Extension(name))
  {
    var e := Extension(name);
    assert forall k | 0 <= k < |e| :: e[k] == name[|name| - |e| + k];
    assert forall k | 0 <= k < |e| :: IsDigit(e[k]) || e[k] == '.';
  }

  /** A dotted list of two or more numbers is classified as DICOM exactly
      when it is at most 64 characters long. */
  lemma UidNameClassified(ns: seq<nat>)
    requires |ns| >= 2
    ensures var name := JoinWith(Numerals(ns), '.');
      MightBeDicom(name) <==> |name| <= MaxUidLength
  {
    var name := JoinWith(Numerals(ns), '.');
    UidShapeOfNumerals(ns);
    DigitsAndDotsOnly(name);
    assert BeforeFinalNewline(name) == name by {
      assert |name| > 0 ==> name[|name| - 1] != '\n';
    }
    LastIndexOfAt(name, '/', -1);
  }

  /** A dotted list of two or more numbers has the UID shape and holds only
      digits and dots. */
  lemma UidShapeOfNumerals(ns: seq<nat>)
    requires |ns| >= 2
    ensures IsUid(JoinWith(Numerals(ns), '.'))
    ensures DigitsAndDots(JoinWith(Numerals(ns), '.'))
  {
    var parts := Numerals(ns);
    NumeralsJoinedAreDigitsAndDots(ns);
    forall i | 0 <= i < |parts| ensures '.' !in parts[i] {
      assert IsDigits(parts[i]);
    }
    SplitJoin(parts, '.');
  }

  lemma {:induction false} NumeralsJoinedAreDigitsAndDots(ns: seq<nat>)
    ensures DigitsAndDots(JoinWith(Numerals(ns), '.'))
  {
    var parts := Numerals(ns);
    if |ns| == 1 {
      assert JoinWith(parts, '.') == NatToString(ns[0]);
    } else if |ns| > 1 {
      NumeralsJoinedAreDigitsAndDots(ns[1..]);
      assert parts[1..] == Numerals(ns[1..]);
      var head, rest := NatToString(ns[0]), JoinWith(Numerals(ns[1..]), '.');
      var name := head + ['.'] + rest;
      assert JoinWith(parts, '.') == name;
      forall i | 0 <= i < |name| ensures IsDigit(name[i]) || name[i] == '.' {
        if i < |head| {
          assert name[i] == head[i];
          assert IsDigits(head);
          assert IsDigit(head[i]);
        } else if i > |head| {
          var k := i - |head| - 1;
          assert name[i] == rest[k];
        } else {
          assert name[i] == '.';
        }
      }
    }
  }

  /** Every string of UID shape is the dotted list of its components'
      values. */
  lemma UidIsDottedNumbers(s: string)
    requires IsUid(s)
    ensures exists ns: seq<nat> :: |ns| >= 2 && s == JoinWith(Numerals(ns), '.')
  {
    var parts := Split(s, '.');
    var ns := seq(|parts|, i requires 0 <= i < |parts| => DigitsValue(parts[i]));
    forall i | 0 <= i < |parts| ensures Numerals(ns)[i] == parts[i] {
      NatToStringOfCanonical(parts[i]);
    }
    assert Numerals(ns) == parts;
    JoinSplit(s, '.');
  }

  /** `DCM_` and the decimal numeral of any number is classified as DICOM. */
  lemma DcmNameClassified(n: nat)
    ensures MightBeDicom("DCM_" + NatToString(n))
  {
    var ds := NatToString(n);
    forall i | 0 <= i < |ds| ensures IsDecimal(ds[i]) {
      AsciiDecimal(ds[i]);
    }
    DcmDecimalClassified(ds);
  }

  /** `DCM_` followed by decimal digits of any script, fullwidth or
      Arabic-Indic ones included, is classified as DICOM. */
  lemma DcmDecimalClassified(ds: string)
    requires ds != "" && forall i | 0 <= i < |ds| :: IsDecimal(ds[i])
    ensures MightBeDicom("DCM_" + ds)
  {
    var name := "DCM_" + ds;
    assert name[..4] == "DCM_";
    assert forall i | 4 <= i < |name| :: name[i] == ds[i - 4];
    assert '/' !in name by {
      assert forall i | 4 <= i < |name| :: name[i] != '/';
    }
    PlainDcmName(name);
  }

  /** Fullwidth and Arabic-Indic digits are decimal digits; a letter is
      not. */
  lemma OtherScriptDigits()
    ensures IsDecimal('\U{ff11}') && IsDecimal('\U{661}') && !IsDecimal('x')
  {
  }

  /** A `DCM_` name without separators or a final newline is classified. */
  lemma PlainDcmName(name: string)
    requires '/' !in name && |name| > 0 && name[|name| - 1] != '\n' && IsDcmName(name)
    ensures MightBeDicom(name)
  {
    LastIndexOfAt(name, '/', -1);
    assert Basename(name) == name;
    DcmRuleClassifies(name);
  }

  /** The `DCM_` rule alone is enough to classify a name. */
  lemma DcmRuleClassifies(path: string)
    requires IsDcmName(BeforeFinalNewline(Basename(path)))
    ensures MightBeDicom(path)
  {
  }

  /** A path ending in a separator is never taken for a DICOM file. */
  lemma SlashEndedRejected(path: string)
    requires |path| > 0 && path[|path| - 1] == '/'
    ensures !MightBeDicom(path)
  {
    assert LastIndexOf(path, '/') == |path| - 1;
  }

  /** A name with a claimed extension and a stem that is not all dots is
      classified as DICOM. */
  lemma ExtensionClassified(stem: string, e: string)
    requires IsDicomExtension(e)
    requires '/' !in stem && exists j | 0 <= j < |stem| :: stem[j] != '.'
    ensures MightBeDicom(stem + "." + e)
  {
    var name := stem + "." + e;
    assert '.' !in e && '/' !in e;
    assert LastIndexOf(name, '/') == -1;
    assert Basename(name) == name;
    assert name[|stem|] == '.';
    assert forall k | |stem| < k < |name| :: name[k] == e[k - |stem| - 1];
    assert LastIndexOf(name, '.') == |stem|;
    var j :| 0 <= j < |stem| && stem[j] != '.';
    assert name[j] != '.';
    assert SplitExt(name).1 == "." + e;
  }

  /** Python's `$` lets a UID with one trailing newline through. */
  lemma TrailingNewlineAccepted(ns: seq<nat>)
    requires |ns| >= 2
    requires |JoinWith(Numerals(ns), '.')| < MaxUidLength
    ensures MightBeDicom(JoinWith(Numerals(ns), '.') + "\n")
  {
    UidShapeOfNumerals(ns);
    UidWithNewline(JoinWith(Numerals(ns), '.'));
  }

  /** A short name of UID shape followed by a newline is classified. */
  lemma UidWithNewline(name: string)
    requires IsUid(name) && DigitsAndDots(name) && |name| < MaxUidLength
    ensures MightBeDicom(name + "\n")
  {
    var p := name + "\n";
    assert forall j | 0 <= j < |p| :: p[j] != '/' by {
      assert forall j | 0 <= j < |name| :: p[j] == name[j];
    }
    LastIndexOfAt(p, '/', -1);
    assert Basename(p) == p;
    assert BeforeFinalNewline(p) == name by {
      assert p[..|p| - 1] == name;
    }
    UidRuleClassifies(p);
  }

  /** The UID rule alone is enough to classify a name. */
  lemma UidRuleClassifies(path: string)
    requires IsUid(BeforeFinalNewline(Basename(path))) && |Basename(path)| <= MaxUidLength
    ensures MightBeDicom(path)
  {
  }
}
