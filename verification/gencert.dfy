/** gencert.py: certificate numbering, record cleaning, output file names and
    the batch loop that stamps every record with its number and date. */
module GenCert {
  import opened PyLib
  import opened QrGen
  import CertUtil

  const StudentName: string := "student_name"
  const Gender: string := "gender"
  const StartDate: string := "start_date"
  const EndDate: string := "end_date"
  const BareName: string := "bare_name"
  const SlautName: string := "slaut_name"
  const CertificateNumber: string := "certificate_number"
  const CertificateDate: string := "certificate_date"
  const OwnerPassword: string := "owner_password"
  const DownloadLink: string := "download_link"

  /** The allow-list gen_qrpdf hands to qr_string. */
  const QrFields: seq<string> := [
    "student_name", "institute_name", "start_date", "end_date",
    "supervisor_name", "project_title", "certificate_date", "certificate_number"
  ]

  // ================================================================ numbering

  /** A certificate number, and equally the allocator state (year in use,
      last number issued). */
  datatype CertNumber = CertNumber(year: int, num: int)

  /** Lexicographic order on (year, number). */
  predicate Precedes(a: CertNumber, b: CertNumber)
  {
    a.year < b.year || (a.year == b.year && a.num < b.num)
  }

  /** gen_cert_number, with the year datetime.now() reports passed in. A later
      year starts a new series at 1; any other year, earlier ones included,
      continues the year in use with the next number. Either way the result
      comes strictly after the state it was computed from. */
  function GenCertNumber(currentYear: int, inUse: CertNumber): (next: CertNumber)
    ensures currentYear > inUse.year ==> next == CertNumber(currentYear, 1)
    ensures currentYear <= inUse.year ==> next == CertNumber(inUse.year, inUse.num + 1)
    ensures Precedes(inUse, next)
    ensures next.year != inUse.year <==> currentYear > inUse.year
  {
    if currentYear > inUse.year then CertNumber(currentYear, 1)
    else CertNumber(inUse.year, inUse.num + 1)
  }

  /** The state after gen_cert_number has been called once per year in
      `clock` (the years the clock reported, in call order), each call fed the
      previous call's result. Any call moves the state strictly forward. */
  function Thread(start: CertNumber, clock: seq<int>): (last: CertNumber)
    ensures |clock| > 0 ==> Precedes(start, last)
    decreases |clock|
  {
    if |clock| == 0 then start
    else GenCertNumber(clock[|clock| - 1], Thread(start, clock[..|clock| - 1]))
  }

  /** Threading is resumable: running two batches one after the other from the
      state the first leaves gives the same state as one batch of both. */
  lemma {:induction false} ThreadCompose(start: CertNumber, a: seq<int>, b: seq<int>)
    ensures Thread(start, a + b) == Thread(Thread(start, a), b)
    decreases |b|
  {
    if |b| == 0 {
      assert a + b == a;
    } else {
      var n := |b| - 1;
      assert (a + b)[..|a + b| - 1] == a + b[..n];
      assert (a + b)[|a + b| - 1] == b[n];
      ThreadCompose(start, a, b[..n]);
    }
  }

  /** Numbers handed out in one batch strictly increase. */
  lemma ThreadIncreasing(start: CertNumber, clock: seq<int>, i: nat, j: nat)
    requires i < j <= |clock|
    ensures Precedes(Thread(start, clock[..i]), Thread(start, clock[..j]))
  {
    assert clock[..j] == clock[..i] + clock[i..j];
    ThreadCompose(start, clock[..i], clock[i..j]);
  }

  /** With a clock that reports one year y throughout, the k-th number is k in
      a new series if y is later than the year in use, and otherwise the k-th
      number after the last one issued: no gaps, and a restart at 1 only by a
      rollover on the first call. */
  lemma {:induction false} ThreadFixedYear(start: CertNumber, clock: seq<int>, y: int, k: nat)
    requires forall i :: 0 <= i < |clock| ==> clock[i] == y
    requires 1 <= k <= |clock|
    ensures Thread(start, clock[..k])
         == if y > start.year then CertNumber(y, k) else CertNumber(start.year, start.num + k)
    decreases k
  {
    assert clock[..k][..k - 1] == clock[..k - 1];
    if k > 1 {
      ThreadFixedYear(start, clock, y, k - 1);
    }
  }

  /** The numbers handed out, one per call: the k-th is the state after k + 1 calls. */
  function Numbers(start: CertNumber, clock: seq<int>): (nums: seq<CertNumber>)
    ensures |nums| == |clock|
    ensures |clock| > 0 ==> nums[|clock| - 1] == Thread(start, clock)
    decreases |clock|
  {
    if |clock| == 0 then []
    else Numbers(start, clock[..|clock| - 1]) + [Thread(start, clock)]
  }

  /** The k-th number handed out is the state after the first k + 1 calls. */
  lemma {:induction false} NumbersThread(start: CertNumber, clock: seq<int>, k: nat)
    requires k < |clock|
    ensures Numbers(start, clock)[k] == Thread(start, clock[..k + 1])
    decreases |clock|
  {
    var n := |clock| - 1;
    if k < n {
      NumbersThread(start, clock[..n], k);
      assert clock[..n][..k + 1] == clock[..k + 1];
    } else {
      assert clock[..k + 1] == clock;
    }
  }

  /** Numbers handed out in one batch strictly increase, so they are pairwise distinct. */
  lemma NumbersIncreasing(start: CertNumber, clock: seq<int>, i: nat, j: nat)
    requires i < j < |clock|
    ensures Precedes(Numbers(start, clock)[i], Numbers(start, clock)[j])
  {
    NumbersThread(start, clock, i);
    NumbersThread(start, clock, j);
    ThreadIncreasing(start, clock, i + 1, j + 1);
  }

  /** With a clock that reports one year y throughout, the k-th number of the
      batch is k + 1 in a new series if y is later than the year in use, and
      otherwise the (k + 1)-th number after the last one issued. */
  lemma NumbersFixedYear(start: CertNumber, clock: seq<int>, y: int, k: nat)
    requires forall i :: 0 <= i < |clock| ==> clock[i] == y
    requires k < |clock|
    ensures Numbers(start, clock)[k]
         == if y > start.year then CertNumber(y, k + 1) else CertNumber(start.year, start.num + k + 1)
  {
    NumbersThread(start, clock, k);
    ThreadFixedYear(start, clock, y, k + 1);
  }

  /** With a fixed year, every number of the batch after the first is the
      previous one plus one, in the same year: no gaps and no restart. */
  lemma NumbersConsecutive(start: CertNumber, clock: seq<int>, y: int, k: nat)
    requires forall i :: 0 <= i < |clock| ==> clock[i] == y
    requires k + 1 < |clock|
    ensures Numbers(start, clock)[k + 1]
         == CertNumber(Numbers(start, clock)[k].year, Numbers(start, clock)[k].num + 1)
  {
    NumbersFixedYear(start, clock, y, k);
    NumbersFixedYear(start, clock, y, k + 1);
  }

  // ================================================================ formatting

  /** f"{year:4d}/{num:04d}" */
  function FormatCertNumber(n: CertNumber): string
  {
    FormatD(n.year, 4) + "/" + FormatZeroD(n.num, 4)
  }

  /** docx_prefix: the certificate number with '/' replaced by '_'. */
  function FilePrefix(n: CertNumber): string
  {
    Replace(FormatCertNumber(n), "/", "_")
  }

  /** Four-digit years and numbers up to 9999. */
  predicate InRange(n: CertNumber)
  {
    1000 <= n.year <= 9999 && 0 <= n.num <= 9999
  }

  /** Reads "YYYY<sep>NNNN" back into a number. */
  function ParseCertNumber(s: string, sep: char): Option<CertNumber>
  {
    if |s| == 9 && s[4] == sep && AllDigits(s[..4]) && AllDigits(s[5..])
    then Some(CertNumber(DecimalValue(s[..4]), DecimalValue(s[5..])))
    else None
  }

  lemma YearField(year: int)
    requires 1000 <= year <= 9999
    ensures FormatD(year, 4) == Digits(year)
    ensures |Digits(year)| == 4 && AllDigits(Digits(year)) && DecimalValue(Digits(year)) == year
  {
    DigitsLength(year);
    DigitsRoundTrip(year);
  }

  lemma NumberField(num: int)
    requires 0 <= num <= 9999
    ensures |FormatZeroD(num, 4)| == 4
    ensures AllDigits(FormatZeroD(num, 4)) && DecimalValue(FormatZeroD(num, 4)) == num
  {
    DigitsLength(num);
    DigitsRoundTrip(num);
    var d := Digits(num);
    if |d| < 4 {
      LeadingZerosValue(4 - |d|, d);
      assert FormatZeroD(num, 4) == Repeat('0', 4 - |d|) + d;
    }
  }

  /** In range, a certificate number is 9 characters: four digits, '/', four digits. */
  lemma FormatShape(n: CertNumber)
    requires InRange(n)
    ensures |FormatCertNumber(n)| == 9 && FormatCertNumber(n)[4] == '/'
    ensures FormatCertNumber(n)[..4] == FormatD(n.year, 4)
    ensures FormatCertNumber(n)[5..] == FormatZeroD(n.num, 4)
    ensures AllDigits(FormatCertNumber(n)[..4]) && AllDigits(FormatCertNumber(n)[5..])
  {
    YearField(n.year);
    NumberField(n.num);
  }

  /** In range, the certificate number reads back as the number it was made from. */
  lemma FormatRoundTrip(n: CertNumber)
    requires InRange(n)
    ensures ParseCertNumber(FormatCertNumber(n), '/') == Some(n)
  {
    FormatShape(n);
    YearField(n.year);
    NumberField(n.num);
  }

  /** Replacing '/' in "y/m", where y and m hold no '/', gives "y_m". */
  lemma ReplaceSlash(y: string, m: string)
    requires '/' !in y && '/' !in m
    ensures Replace(y + "/" + m, "/", "_") == y + "_" + m
  {
    ReplaceAppend(y + "/", m, '/', "_");
    ReplaceAppend(y, "/", '/', "_");
    ReplaceAbsent(y, "/", "_", '/');
    ReplaceAbsent(m, "/", "_", '/');
    assert Replace("/", "/", "_") == "_";
  }

  /** In range, the file prefix is the number with '_' for '/', and reads back too. */
  lemma PrefixRoundTrip(n: CertNumber)
    requires InRange(n)
    ensures FilePrefix(n) == FormatCertNumber(n)[..4] + "_" + FormatCertNumber(n)[5..]
    ensures ParseCertNumber(FilePrefix(n), '_') == Some(n)
  {
    FormatShape(n);
    FormatRoundTrip(n);
    var f := FormatCertNumber(n);
    var y, m := f[..4], f[5..];
    assert f == y + "/" + m;
    assert '/' !in y by { assert forall i :: 0 <= i < |y| ==> IsDigit(y[i]); }
    assert '/' !in m by { assert forall i :: 0 <= i < |m| ==> IsDigit(m[i]); }
    ReplaceSlash(y, m);
    var p := y + "_" + m;
    assert p[..4] == y && p[5..] == m;
  }

  /** In range, different numbers print differently. */
  lemma FormatInjective(a: CertNumber, b: CertNumber)
    requires InRange(a) && InRange(b)
    requires FormatCertNumber(a) == FormatCertNumber(b)
    ensures a == b
  {
    FormatRoundTrip(a);
    FormatRoundTrip(b);
  }

  /** The characters a formatted number can hold: digits, the sign and padding. */
  predicate NumberChar(c: char) { IsDigit(c) || c == ' ' || c == '-' }

  lemma DecimalChars(n: int)
    ensures forall i :: 0 <= i < |Decimal(n)| ==> NumberChar(Decimal(n)[i])
  {
    DigitsRoundTrip(if n < 0 then -n else n);
  }

  lemma PadChars(s: string, width: nat, fill: char)
    requires forall i :: 0 <= i < |s| ==> NumberChar(s[i])
    requires NumberChar(fill)
    ensures forall i :: 0 <= i < |PadLeft(s, width, fill)| ==> NumberChar(PadLeft(s, width, fill)[i])
  {
  }

  /** A certificate number holds only digits, spaces, '-' and its one '/', whatever the numbers. */
  lemma FormatChars(n: CertNumber)
    ensures forall i :: 0 <= i < |FormatCertNumber(n)| ==> NumberChar(FormatCertNumber(n)[i]) || FormatCertNumber(n)[i] == '/'
  {
    var y := FormatD(n.year, 4);
    DecimalChars(n.year);
    PadChars(Decimal(n.year), 4, ' ');
    var m := FormatZeroD(n.num, 4);
    var d := Digits(if n.num < 0 then -n.num else n.num);
    DigitsRoundTrip(if n.num < 0 then -n.num else n.num);
    PadChars(d, if n.num < 0 then 3 else 4, '0');
    assert forall i :: 0 <= i < |m| ==> NumberChar(m[i]);
  }

  /** The file prefix holds neither '/' nor '.'. */
  lemma PrefixChars(n: CertNumber)
    ensures '/' !in FilePrefix(n) && '.' !in FilePrefix(n)
  {
    var f := FormatCertNumber(n);
    FormatChars(n);
    assert '.' !in f;
    ReplaceRemoves(f, '/', "_");
    ReplaceChars(f, "/", "_");
  }

  /** In range, the file prefix is nine characters long. */
  lemma PrefixLength(n: CertNumber)
    requires InRange(n)
    ensures |FilePrefix(n)| == 9
  {
    FormatShape(n);
    ReplaceLength(FormatCertNumber(n), "/", "_");
  }

  // ================================================================ names

  /** The first stage of mangle_name: "Mr. " and "Ms. " dropped, then lower-cased. */
  function Unsalute(name: string): string
  {
    Lower(Replace(Replace(name, "Mr. ", ""), "Ms. ", ""))
  }

  /** The second stage of mangle_name: ". ", "." and " " turned into '_'. */
  function Underscore(s: string): string
  {
    Replace(Replace(Replace(s, ". ", "_"), ".", "_"), " ", "_")
  }

  /** mangle_name: drops "Mr. " and "Ms. ", lower-cases, and turns ". ", "."
      and " " into '_'. */
  function MangleName(name: string): string
  {
    Underscore(Unsalute(name))
  }

  /** The first stage shortens nothing it keeps, lower-cases every letter and
      brings in no new character. */
  lemma UnsaluteProperties(name: string)
    ensures |Unsalute(name)| <= |name|
    ensures forall i :: 0 <= i < |Unsalute(name)| ==> !IsUpper(Unsalute(name)[i])
    ensures forall c :: c in Unsalute(name) ==> c in Lower(name)
  {
    var s1 := Replace(name, "Mr. ", "");
    var s2 := Replace(s1, "Ms. ", "");
    var s3 := Lower(s2);
    ReplaceLength(name, "Mr. ", "");
    ReplaceLength(s1, "Ms. ", "");
    ReplaceChars(name, "Mr. ", "");
    ReplaceChars(s1, "Ms. ", "");
    forall c | c in s3 ensures c in Lower(name) {
      var i :| 0 <= i < |s3| && s3[i] == c;
      assert s2[i] in s2;
      var j :| 0 <= j < |name| && name[j] == s2[i];
      assert Lower(name)[j] == c;
    }
  }

  /** The second stage leaves no ' ' and no '.', shortens or keeps the length,
      and adds no character but '_'. */
  lemma UnderscoreProperties(s: string)
    ensures ' ' !in Underscore(s) && '.' !in Underscore(s)
    ensures |Underscore(s)| <= |s|
    ensures forall c :: c in Underscore(s) ==> c in s || c == '_'
  {
    var s4 := Replace(s, ". ", "_");
    var s5 := Replace(s4, ".", "_");
    ReplaceLength(s, ". ", "_");
    ReplaceLength(s4, ".", "_");
    ReplaceLength(s5, " ", "_");
    ReplaceChars(s, ". ", "_");
    ReplaceChars(s4, ".", "_");
    ReplaceChars(s5, " ", "_");
    ReplaceRemoves(s4, '.', "_");
    ReplaceRemoves(s5, ' ', "_");
  }

  /** A mangled name holds no space, no '.' and no upper-case letter, is no
      longer than the name, and every other character of it is a lower-cased
      character of the name. */
  lemma MangleProperties(name: string)
    ensures ' ' !in MangleName(name) && '.' !in MangleName(name)
    ensures forall i :: 0 <= i < |MangleName(name)| ==> !IsUpper(MangleName(name)[i])
    ensures |MangleName(name)| <= |name|
    ensures forall c :: c in MangleName(name) && c != '_' ==> c in Lower(name)
  {
    var u := Unsalute(name);
    var m := Underscore(u);
    UnsaluteProperties(name);
    UnderscoreProperties(u);
    forall i | 0 <= i < |m| ensures !IsUpper(m[i]) {
      assert m[i] in m;
      if m[i] != '_' {
        var j :| 0 <= j < |u| && u[j] == m[i];
      }
    }
  }

  /** mangle_name is idempotent. */
  lemma MangleIdempotent(name: string)
    ensures MangleName(MangleName(name)) == MangleName(name)
  {
    var m := MangleName(name);
    MangleProperties(name);
    ReplaceAbsent(m, "Mr. ", "", ' ');
    ReplaceAbsent(m, "Ms. ", "", ' ');
    LowerNoUpper(m);
    ReplaceAbsent(m, ". ", "_", '.');
    ReplaceAbsent(m, ".", "_", '.');
    ReplaceAbsent(m, " ", "_", ' ');
  }

  /** A file stem for a number and a file-name fragment: int_cert_<prefix>_<fragment> */
  function Stem(n: CertNumber, fragment: string): string
  {
    "int_cert_" + FilePrefix(n) + "_" + fragment
  }

  /** The stem main builds, whose fragment is the mangled student name. */
  function OutputStem(n: CertNumber, studentName: string): string
  {
    Stem(n, MangleName(studentName))
  }

  /** The name of the docx file, Path(f"int_cert_..._....docx").name. */
  function DocxName(n: CertNumber, studentName: string): string
  {
    BaseName(OutputStem(n, studentName) + ".docx")
  }

  /** The name of the PDF file, Path(docx_output).with_suffix(".pdf").name. */
  function PdfName(n: CertNumber, studentName: string): string
  {
    WithSuffix(DocxName(n, studentName), ".pdf")
  }

  /** A stem without '/' or '.' is its own file name, and changing the suffix
      of the docx name swaps ".docx" for ".pdf". */
  lemma StemNames(stem: string)
    requires |stem| > 0 && '/' !in stem && '.' !in stem
    ensures BaseName(stem + ".docx") == stem + ".docx"
    ensures WithSuffix(stem + ".docx", ".pdf") == stem + ".pdf"
  {
    var name := stem + ".docx";
    assert '/' !in ".docx";
    assert '/' !in name;
    assert name[0..] == name;
    assert name[|stem|] == '.';
    forall k | |stem| < k < |name| ensures name[k] != '.' {
      assert name[k] == ".docx"[k - |stem|];
    }
    assert RFind(name, '.') == |stem|;
    assert name[..|stem|] == stem;
  }

  /** A fragment without '/' or '.' gives a stem that is its own docx name,
      and whose PDF name is the stem with ".pdf". */
  lemma StemFileNames(n: CertNumber, fragment: string)
    requires '/' !in fragment && '.' !in fragment
    ensures BaseName(Stem(n, fragment) + ".docx") == Stem(n, fragment) + ".docx"
    ensures WithSuffix(Stem(n, fragment) + ".docx", ".pdf") == Stem(n, fragment) + ".pdf"
  {
    PrefixChars(n);
    var head := "int_cert_";
    assert '/' !in head && '.' !in head;
    var stem := Stem(n, fragment);
    assert forall c :: c in stem ==> c in head || c in FilePrefix(n) || c == '_' || c in fragment;
    StemNames(stem);
  }

  /** For a student name without '/', the docx and PDF names are the shared
      stem with ".docx" and ".pdf". */
  lemma OutputNames(n: CertNumber, studentName: string)
    requires '/' !in studentName
    ensures DocxName(n, studentName) == OutputStem(n, studentName) + ".docx"
    ensures PdfName(n, studentName) == OutputStem(n, studentName) + ".pdf"
  {
    var mangled := MangleName(studentName);
    MangleProperties(studentName);
    assert '/' !in mangled by {
      assert '/' !in Lower(studentName);
    }
    StemFileNames(n, mangled);
  }

  /** In range, a stem carries the file prefix at a fixed place. */
  lemma StemPrefix(n: CertNumber, fragment: string)
    requires InRange(n)
    ensures |Stem(n, fragment)| >= 18 && Stem(n, fragment)[9..18] == FilePrefix(n)
  {
    PrefixLength(n);
  }

  /** In range, different numbers have different file prefixes. */
  lemma PrefixDistinct(a: CertNumber, b: CertNumber)
    requires InRange(a) && InRange(b) && a != b
    ensures FilePrefix(a) != FilePrefix(b)
  {
    PrefixRoundTrip(a);
    PrefixRoundTrip(b);
  }

  /** Strings that differ on a common slice stay different whatever is appended. */
  lemma SliceDiffers(x: string, y: string, tail: string, lo: nat, hi: nat)
    requires lo <= hi <= |x| && hi <= |y| && x[lo..hi] != y[lo..hi]
    ensures x + tail != y + tail
  {
    assert (x + tail)[lo..hi] == x[lo..hi];
    assert (y + tail)[lo..hi] == y[lo..hi];
  }

  /** In range, the stems of two different numbers, and the docx and PDF
      names made of them, differ whatever the fragments. */
  lemma StemsDistinct(a: CertNumber, fa: string, b: CertNumber, fb: string)
    requires InRange(a) && InRange(b) && a != b
    ensures Stem(a, fa) + ".docx" != Stem(b, fb) + ".docx"
    ensures Stem(a, fa) + ".pdf" != Stem(b, fb) + ".pdf"
  {
    StemPrefix(a, fa);
    StemPrefix(b, fb);
    PrefixDistinct(a, b);
    var x, y := Stem(a, fa), Stem(b, fb);
    SliceDiffers(x, y, ".docx", 9, 18);
    SliceDiffers(x, y, ".pdf", 9, 18);
  }

  /** In range, and for student names without '/', two records with different
      numbers never share a docx or PDF name. */
  lemma OutputNamesDistinct(a: CertNumber, sa: string, b: CertNumber, sb: string)
    requires InRange(a) && InRange(b) && a != b
    requires '/' !in sa && '/' !in sb
    ensures DocxName(a, sa) != DocxName(b, sb)
    ensures PdfName(a, sa) != PdfName(b, sb)
  {
    OutputNames(a, sa);
    OutputNames(b, sb);
    StemsDistinct(a, MangleName(sa), b, MangleName(sb));
  }

  // ---------------------------------------------------------------- a '/' in the name

  /** mangle_name keeps a '/'. */
  lemma MangleKeepsSlash(name: string, mangled: string)
    requires (name == "A/B" && mangled == "a/b") || (name == "C/B" && mangled == "c/b")
    ensures MangleName(name) == mangled
  {
    ReplaceAbsent(name, "Mr. ", "", ' ');
    ReplaceAbsent(name, "Ms. ", "", ' ');
    assert Lower(name) == mangled;
    ReplaceAbsent(mangled, ". ", "_", '.');
    ReplaceAbsent(mangled, ".", "_", '.');
    ReplaceAbsent(mangled, " ", "_", ' ');
  }

  /** When the mangled name is "x/b", Path(...).name keeps only what follows
      the '/', and the number no longer appears in the file names. */
  lemma SlashDropsStem(n: CertNumber, name: string, x: char)
    requires x != '/' && MangleName(name) == [x, '/', 'b']
    ensures DocxName(n, name) == "b.docx" && PdfName(n, name) == "b.pdf"
  {
    SlashBaseName(n, x);
    DocxToPdf();
  }

  lemma SlashBaseName(n: CertNumber, x: char)
    requires x != '/'
    ensures BaseName(Stem(n, [x, '/', 'b']) + ".docx") == "b.docx"
  {
    var dir := "int_cert_" + FilePrefix(n) + "_" + [x];
    assert Stem(n, [x, '/', 'b']) + ".docx" == dir + "/" + "b.docx";
    BaseNameLast(dir, "b.docx");
  }

  lemma DocxToPdf()
    ensures WithSuffix("b.docx", ".pdf") == "b.pdf"
  {
    var d := "b.docx";
    assert d[1] == '.';
    assert forall k :: 1 < k < |d| ==> d[k] != '.';
    assert RFind(d, '.') == 1;
    assert d[..1] == "b";
  }

  /** As written, two students named "A/B" and "C/B" get the same docx and PDF
      names whatever their certificate numbers: the second certificate
      overwrites the first. */
  lemma SlashNameCollision(a: CertNumber, b: CertNumber)
    ensures DocxName(a, "A/B") == DocxName(b, "C/B") == "b.docx"
    ensures PdfName(a, "A/B") == PdfName(b, "C/B") == "b.pdf"
  {
    MangleKeepsSlash("A/B", "a/b");
    MangleKeepsSlash("C/B", "c/b");
    SlashDropsStem(a, "A/B", 'a');
    SlashDropsStem(b, "C/B", 'c');
  }

  /** The evidently intended fragment: mangle_name with '/' turned into '_' too. */
  function SafeMangleName(name: string): string
  {
    Replace(MangleName(name), "/", "_")
  }

  function SafeDocxName(n: CertNumber, studentName: string): string
  {
    BaseName(Stem(n, SafeMangleName(studentName)) + ".docx")
  }

  function SafePdfName(n: CertNumber, studentName: string): string
  {
    WithSuffix(SafeDocxName(n, studentName), ".pdf")
  }

  /** With the intended fragment, every student name gives the full stem. */
  lemma SafeOutputNames(n: CertNumber, studentName: string)
    ensures SafeDocxName(n, studentName) == Stem(n, SafeMangleName(studentName)) + ".docx"
    ensures SafePdfName(n, studentName) == Stem(n, SafeMangleName(studentName)) + ".pdf"
  {
    var m := MangleName(studentName);
    MangleProperties(studentName);
    ReplaceRemoves(m, '/', "_");
    ReplaceChars(m, "/", "_");
    StemFileNames(n, SafeMangleName(studentName));
  }

  /** With the intended fragment, different in-range numbers never share a
      docx or PDF name, whatever the student names. */
  lemma SafeOutputNamesDistinct(a: CertNumber, sa: string, b: CertNumber, sb: string)
    requires InRange(a) && InRange(b) && a != b
    ensures SafeDocxName(a, sa) != SafeDocxName(b, sb)
    ensures SafePdfName(a, sa) != SafePdfName(b, sb)
  {
    SafeOutputNames(a, sa);
    SafeOutputNames(b, sb);
    StemsDistinct(a, SafeMangleName(sa), b, SafeMangleName(sb));
  }

  /** For names without '/', the intended names are the ones main builds. */
  lemma SafeNamesAgree(n: CertNumber, studentName: string)
    requires '/' !in studentName
    ensures SafeDocxName(n, studentName) == DocxName(n, studentName)
    ensures SafePdfName(n, studentName) == PdfName(n, studentName)
  {
    MangleProperties(studentName);
    assert '/' !in MangleName(studentName) by {
      assert '/' !in Lower(studentName);
    }
    ReplaceAbsent(MangleName(studentName), "/", "_", '/');
  }

  // ================================================================ clean_data

  /** How many leading characters of s are c. */
  function LeadingCount(s: string, c: char): (k: nat)
    ensures k <= |s|
    ensures forall i :: 0 <= i < k ==> s[i] == c
    ensures k < |s| ==> s[k] != c
    decreases |s|
  {
    if |s| > 0 && s[0] == c then 1 + LeadingCount(s[1..], c) else 0
  }

  /** The regular expression ^M[rs]s*\.[ ]* : the length of its match at the
      start of the name, or 0 when it does not match. */
  function SalutationLength(name: string): (k: nat)
    ensures k <= |name|
  {
    if |name| >= 2 && name[0] == 'M' && (name[1] == 'r' || name[1] == 's') then
      var dot := 2 + LeadingCount(name[2..], 's');
      if dot < |name| && name[dot] == '.' then dot + 1 + LeadingCount(name[dot + 1..], ' ') else 0
    else 0
  }

  /** The bare_name column: the salutation matched by the regular expression removed. */
  function StripSalutation(name: string): (bare: string)
    ensures EndsWith(name, bare)
    ensures |name| == 0 || name[0] != 'M' ==> bare == name
  {
    name[SalutationLength(name)..]
  }

  /** The head of the regular expression at the start of the name: 'M', 'r'
      or 's', a run of 's', and the '.' at index d. */
  predicate SalutationHead(name: string, d: nat)
  {
    && 2 <= d < |name| && name[0] == 'M' && (name[1] == 'r' || name[1] == 's')
    && (forall i :: 2 <= i < d ==> name[i] == 's')
    && name[d] == '.'
  }

  /** name[lo..k] is all spaces and is not followed by another space: the
      whole run of spaces starting at lo. */
  predicate SpaceRun(name: string, lo: nat, k: nat)
  {
    && lo <= k <= |name|
    && (forall i :: lo <= i < k ==> name[i] == ' ')
    && (k == |name| || name[k] != ' ')
  }

  /** LeadingCount read at an offset of the name. */
  lemma LeadingRun(name: string, lo: nat, c: char)
    requires lo <= |name|
    ensures var k := lo + LeadingCount(name[lo..], c);
      && k <= |name|
      && (forall i :: lo <= i < k ==> name[i] == c)
      && (k == |name| || name[k] != c)
  {
    var t := name[lo..];
    forall i | lo <= i < lo + LeadingCount(t, c) ensures name[i] == c {
      assert name[i] == t[i - lo];
    }
  }

  /** When the name starts with the head, exactly the head and the whole run
      of spaces after it are removed. */
  lemma StripSalutationMatch(name: string, d: nat)
    requires SalutationHead(name, d)
    ensures var k := |name| - |StripSalutation(name)|;
      SpaceRun(name, d + 1, k) && StripSalutation(name) == name[k..]
  {
    LeadingRun(name, 2, 's');
    var dot := 2 + LeadingCount(name[2..], 's');
    assert dot == d;
    LeadingRun(name, d + 1, ' ');
  }

  /** The name is returned unchanged exactly when it does not start with the
      head: no name is stripped that the regular expression does not match. */
  lemma StripSalutationUnchanged(name: string)
    ensures StripSalutation(name) == name <==> forall d :: !SalutationHead(name, d)
  {
    if forall d :: !SalutationHead(name, d) {
      if |name| >= 2 && name[0] == 'M' && (name[1] == 'r' || name[1] == 's') {
        LeadingRun(name, 2, 's');
        var dot := 2 + LeadingCount(name[2..], 's');
        assert !SalutationHead(name, dot);
      }
      assert name[0..] == name;
    } else {
      var d :| SalutationHead(name, d);
      StripSalutationMatch(name, d);
    }
  }

  /** A space followed by a name that does not start with one is one space. */
  lemma OneSpace(bare: string)
    requires |bare| == 0 || bare[0] != ' '
    ensures LeadingCount(" " + bare, ' ') == 1
  {
    assert (" " + bare)[1..] == bare;
  }

  /** A name that reads 'M', 'r' or 's', d - 2 more 's', '.', ' ' and then a
      bare name not starting with a space loses exactly its first d + 2 characters. */
  lemma SalutationShape(name: string, d: nat, bare: string)
    requires d == 2 || d == 3
    requires |name| == d + 2 + |bare| && name[d + 2..] == bare
    requires name[0] == 'M' && (name[1] == 'r' || name[1] == 's')
    requires d == 3 ==> name[2] == 's'
    requires name[d] == '.' && name[d + 1] == ' '
    requires |bare| == 0 || bare[0] != ' '
    ensures StripSalutation(name) == bare
  {
    var t := name[2..];
    if d == 3 {
      assert t[1..] == name[3..];
      assert LeadingCount(name[3..], 's') == 0;
    } else {
      assert LeadingCount(t, 's') == 0;
    }
    assert name[d + 1..] == " " + bare;
    OneSpace(bare);
  }

  /** The regular expression matches "Mr. ", "Ms. " and "Mrs. " in full. */
  lemma SalutationMatch(sal: string, bare: string)
    requires sal == "Mr. " || sal == "Ms. " || sal == "Mrs. "
    requires |bare| == 0 || bare[0] != ' '
    ensures StripSalutation(sal + bare) == bare
  {
    var name := sal + bare;
    assert name[|sal|..] == bare;
    SalutationShape(name, |sal| - 2, bare);
  }

  /** Stripping undoes mod_name: for a gender starting with 'M' or 'F' and a
      name not starting with a space, the salutation added is the one removed. */
  lemma StripModName(bare: string, gender: string)
    requires gender != "" && (gender[0] == 'M' || gender[0] == 'F')
    requires |bare| == 0 || bare[0] != ' '
    ensures StripSalutation(CertUtil.ModName(bare, gender).value) == bare
  {
    SalutationMatch(if gender[0] == 'M' then "Mr. " else "Ms. ", bare);
  }

  /** A roster as clean_data receives it: the column names, and the rows, each
      holding exactly those columns. */
  datatype Table = Table(columns: set<string>, rows: seq<Record>)

  predicate Rectangular(t: Table)
  {
    forall i :: 0 <= i < |t.rows| ==> t.rows[i].Keys == t.columns
  }

  /** The columns clean_data adds. */
  const AddedColumns: set<string> :=
    {BareName, SlautName, CertificateNumber, CertificateDate, OwnerPassword, DownloadLink}

  /** The per-row rules of clean_data: the gender reduced to its upper-cased
      initial, the salutation stripped into bare_name, mod_name's result in
      slaut_name and the four pipeline fields blank. Dates are left as they are. */
  function CleanRow(row: Record): (clean: Record)
    requires StudentName in row && Gender in row && row[Gender] != ""
    ensures clean.Keys == row.Keys + AddedColumns
    ensures clean[Gender] == [UpperChar(row[Gender][0])]
    ensures clean[BareName] == StripSalutation(row[StudentName])
    ensures EndsWith(row[StudentName], clean[BareName])
    ensures CertUtil.ModName(clean[BareName], clean[Gender]) == Ok(clean[SlautName])
    ensures clean[CertificateNumber] == "" && clean[CertificateDate] == ""
    ensures clean[OwnerPassword] == "" && clean[DownloadLink] == ""
    ensures forall k :: k in row && k != Gender && k !in AddedColumns ==> clean[k] == row[k]
  {
    var gender := [UpperChar(row[Gender][0])];
    var bare := StripSalutation(row[StudentName]);
    var saluted := CertUtil.ModName(bare, gender).value;
    row[Gender := gender][BareName := bare][SlautName := saluted]
       [CertificateNumber := ""][CertificateDate := ""][OwnerPassword := ""][DownloadLink := ""]
  }

  /** clean_data: the columns are read in the order start_date, end_date,
      gender, student_name, and a missing one raises KeyError; an empty gender
      has no initial and makes mod_name fail with TypeError. Otherwise every
      row is cleaned. */
  function CleanData(t: Table): (r: Result<seq<Record>>)
    requires Rectangular(t)
    ensures StartDate !in t.columns ==> r == Err(KeyError(StartDate))
    ensures StartDate in t.columns && EndDate !in t.columns ==> r == Err(KeyError(EndDate))
    ensures {StartDate, EndDate} <= t.columns && Gender !in t.columns ==> r == Err(KeyError(Gender))
    ensures {StartDate, EndDate, Gender} <= t.columns && StudentName !in t.columns
            ==> r == Err(KeyError(StudentName))
    ensures r.Ok? <==>
      && {StartDate, EndDate, Gender, StudentName} <= t.columns
      && forall i :: 0 <= i < |t.rows| ==> t.rows[i][Gender] != ""
    ensures r.Err? && {StartDate, EndDate, Gender, StudentName} <= t.columns ==> r.error == TypeError
    ensures r.Ok? ==> |r.value| == |t.rows|
    ensures r.Ok? ==> forall i :: 0 <= i < |t.rows| ==> r.value[i] == CleanRow(t.rows[i])
    ensures r.Ok? ==> forall i :: 0 <= i < |t.rows| ==> r.value[i].Keys == t.columns + AddedColumns
  {
    if StartDate !in t.columns then Err(KeyError(StartDate))
    else if EndDate !in t.columns then Err(KeyError(EndDate))
    else if Gender !in t.columns then Err(KeyError(Gender))
    else if StudentName !in t.columns then Err(KeyError(StudentName))
    else if exists i :: 0 <= i < |t.rows| && t.rows[i][Gender] == "" then Err(TypeError)
    else Ok(seq(|t.rows|, i requires 0 <= i < |t.rows| => CleanRow(t.rows[i])))
  }

  /** clean_data normalises the salutation to the gender: a name given as
      "Mr. ", "Ms. " or "Mrs. " followed by the bare name gets "Mr. " for a
      gender starting with 'm' or 'M' and "Ms. " for one starting with 'f' or 'F'. */
  lemma CleanSalutation(row: Record, sal: string, bare: string)
    requires StudentName in row && Gender in row && row[Gender] != ""
    requires UpperChar(row[Gender][0]) == 'M' || UpperChar(row[Gender][0]) == 'F'
    requires sal == "Mr. " || sal == "Ms. " || sal == "Mrs. "
    requires row[StudentName] == sal + bare && (|bare| == 0 || bare[0] != ' ')
    ensures CleanRow(row)[BareName] == bare
    ensures CleanRow(row)[SlautName]
         == (if UpperChar(row[Gender][0]) == 'M' then "Mr. " else "Ms. ") + bare
  {
    SalutationMatch(sal, bare);
  }

  // ================================================================ the batch loop

  /** What the loop writes into a record: its number, the certificate date and
      the owner password. */
  function Stamp(rec: Record, n: CertNumber, certDate: string, password: string): (stamped: Record)
    ensures stamped.Keys == rec.Keys + {CertificateNumber, CertificateDate, OwnerPassword}
    ensures stamped[CertificateNumber] == FormatCertNumber(n)
    ensures stamped[CertificateDate] == certDate && stamped[OwnerPassword] == password
    ensures forall k :: k in rec && k !in {CertificateNumber, CertificateDate, OwnerPassword}
                        ==> stamped[k] == rec[k]
  {
    rec[CertificateNumber := FormatCertNumber(n)][CertificateDate := certDate][OwnerPassword := password]
  }

  /** The password gen_cert hands back for the i-th record. */
  function Password(final: bool, tokens: seq<string>, i: nat): string
    requires i < |tokens|
  {
    if final then tokens[i] else ""
  }

  /** One pass of the loop body over the i-th record: the number and the date
      written into it, the output names built from them, and the password
      gen_cert returns written last. */
  method StampRecord(records: array<Record>, i: nat, number: CertNumber, certDate: string, password: string)
    returns (docxOutput: string, pdfOutput: string)
    requires i < records.Length && StudentName in records[i]
    modifies records
    ensures records[i] == Stamp(old(records[i]), number, certDate, password)
    ensures forall k :: 0 <= k < records.Length && k != i ==> records[k] == old(records[k])
    ensures docxOutput == DocxName(number, old(records[i])[StudentName])
    ensures pdfOutput == PdfName(number, old(records[i])[StudentName])
  {
    var data := records[i];
    data := data[CertificateNumber := FormatCertNumber(number)];
    data := data[CertificateDate := certDate];
    var prefix := Replace(data[CertificateNumber], "/", "_");
    docxOutput := BaseName("int_cert_" + prefix + "_" + MangleName(data[StudentName]) + ".docx");
    pdfOutput := WithSuffix(docxOutput, ".pdf");
    data := data[OwnerPassword := password];
    records[i] := data;
  }

  /** The loop of main over the cleaned records. `clock` holds the year the
      clock reports at each gen_cert_number call and `tokens` the random owner
      passwords gen_cert draws; without `final` gen_cert produces nothing and
      the password stays empty. Each record is stamped in place with the next
      number threaded from `start`, and the last state is what main would save.
      The file names of each pass go to gen_cert, which is not part of this model. */
  method NumberCertificates(records: array<Record>, start: CertNumber, clock: seq<int>,
                            certDate: string, final: bool, tokens: seq<string>)
    returns (last: CertNumber)
    requires |clock| == records.Length && |tokens| == records.Length
    requires forall i :: 0 <= i < records.Length ==> StudentName in records[i]
    modifies records
    ensures last == Thread(start, clock)
    ensures forall i :: 0 <= i < records.Length ==>
      records[i] == Stamp(old(records[i]), Numbers(start, clock)[i], certDate, Password(final, tokens, i))
  {
    last := start;
    for i := 0 to records.Length
      invariant last == Thread(start, clock[..i])
      invariant forall k :: 0 <= k < i ==>
        records[k] == Stamp(old(records[k]), Numbers(start, clock)[k], certDate, Password(final, tokens, k))
      invariant forall k :: i <= k < records.Length ==> records[k] == old(records[k])
    {
      last := GenCertNumber(clock[i], last);
      assert clock[..i + 1][..i] == clock[..i];
      NumbersThread(start, clock, i);
      var docxOutput, pdfOutput := StampRecord(records, i, last, certDate, if final then tokens[i] else "");
    }
    assert clock[..records.Length] == clock;
  }

  /** Across a batch whose numbers stay in range, certificate numbers and
      output file names are pairwise distinct (for student names without '/'). */
  lemma BatchDistinct(start: CertNumber, clock: seq<int>, names: seq<string>, i: nat, j: nat)
    requires |names| == |clock| && i < |clock| && j < |clock| && i != j
    requires InRange(Numbers(start, clock)[i]) && InRange(Numbers(start, clock)[j])
    requires '/' !in names[i] && '/' !in names[j]
    ensures FormatCertNumber(Numbers(start, clock)[i]) != FormatCertNumber(Numbers(start, clock)[j])
    ensures DocxName(Numbers(start, clock)[i], names[i]) != DocxName(Numbers(start, clock)[j], names[j])
    ensures PdfName(Numbers(start, clock)[i], names[i]) != PdfName(Numbers(start, clock)[j], names[j])
  {
    var a, b := Numbers(start, clock)[i], Numbers(start, clock)[j];
    if i < j {
      NumbersIncreasing(start, clock, i, j);
    } else {
      NumbersIncreasing(start, clock, j, i);
    }
    if FormatCertNumber(a) == FormatCertNumber(b) {
      FormatInjective(a, b);
    }
    OutputNamesDistinct(a, names[i], b, names[j]);
  }

  /** The payload of a stamped record ends with its certificate-date line,
      its certificate-number line and then the issuer line. */
  lemma StampedPayload(rec: Record, n: CertNumber, certDate: string, password: string)
    ensures var lines := QrGen.PayloadLines(Stamp(rec, n, certDate, password), QrFields);
      && |lines| >= 3
      && lines[|lines| - 3] == QrGen.Label(CertificateDate) + ": " + certDate
      && lines[|lines| - 2] == QrGen.Label(CertificateNumber) + ": " + FormatCertNumber(n)
      && lines[|lines| - 1] == QrGen.Issuer
  {
    var stamped := Stamp(rec, n, certDate, password);
    assert QrFields[6] == CertificateDate && QrFields[7] == CertificateNumber;
    QrGen.PayloadLastTwo(stamped, QrFields);
  }

  /** gen_cert overlays the QR page onto the certificate itself, named by
      pdf_outputpath.name (no output name is given), in a 72-point square whose
      lower-left corner is (72, 72), and deletes the QR PDF, whose name
      Path("qr.png").with_suffix(".pdf").name is "qr.pdf". */
  lemma GenCertOverlay(pdfOutput: string)
    ensures QrGen.PdfOverlay(BaseName(pdfOutput), QrGen.Str(BaseName(WithSuffix("qr.png", ".pdf"))), "", 72, 72, 72)
         == QrGen.OverlayPlan(BaseName(pdfOutput), true, QrGen.Rect(72, 72, 144, 144), QrGen.Path("qr.pdf"))
  {
    QrPdfName();
  }

  /** Path("qr.png").with_suffix(".pdf").name */
  lemma QrPdfName()
    ensures BaseName(WithSuffix("qr.png", ".pdf")) == "qr.pdf"
  {
    var png := "qr.png";
    assert png[2] == '.';
    assert forall k :: 2 < k < |png| ==> png[k] != '.';
    assert RFind(png, '.') == 2;
    var pdf := png[..2] + ".pdf";
    assert pdf == "qr.pdf";
    assert forall k :: 0 <= k < |pdf| ==> pdf[k] != '/';
    assert RFind(pdf, '/') == -1;
    assert pdf[0..] == pdf;
  }
}
