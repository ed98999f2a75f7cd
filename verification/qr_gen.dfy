/** qr_gen.py: the verification payload put into the QR code, str2path, and the
    pure part of stamping the QR page onto a certificate (pdf_overlay). */
module QrGen {
  import opened PyLib

  /** A record as the scripts hold it: field name to its printed value. */
  type Record = map<string, string>

  /** "Indian Institute of Information Technology Dharwad", written in three
      pieces so that facts about its characters are proved piece by piece. */
  const Institute: string := "Indian Institute" + " of Information" + " Technology Dharwad"

  /** The line always closing a payload. */
  const Issuer: string := "Issued by: " + Institute

  // ---------------------------------------------------------------- str2path

  datatype Path = Path(text: string)

  /** An argument typed `str | Path`. */
  datatype StrOrPath = Str(s: string) | IsPath(path: Path)

  /** str2path: a Path is passed through, a string is wrapped. */
  function Str2Path(arg: StrOrPath): (p: Path)
    ensures arg.IsPath? ==> p == arg.path
    ensures arg.Str? ==> p.text == arg.s
  {
    match arg
    case Str(s) => Path(s)
    case IsPath(path) => path
  }

  /** str2path is idempotent: a converted path converts to itself. */
  lemma Str2PathIdempotent(arg: StrOrPath)
    ensures Str2Path(IsPath(Str2Path(arg))) == Str2Path(arg)
  {
  }

  // ---------------------------------------------------------------- qr_string

  /** The label of a payload line: underscores turned into spaces, then
      capitalised. The label is the field name read case-insensitively, with
      spaces for underscores; only its first character may be upper case. */
  function Label(field: string): (caption: string)
    ensures |caption| == |field|
    ensures forall i :: 0 <= i < |caption| ==>
      LowerChar(caption[i]) == LowerChar(if field[i] == '_' then ' ' else field[i])
    ensures '_' !in caption
    ensures |caption| > 0 ==> !IsLower(caption[0])
    ensures forall i :: 1 <= i < |caption| ==> !IsUpper(caption[i])
  {
    var spaced := Replace(field, "_", " ");
    ReplaceLength(field, "_", " ");
    assert forall i :: 0 <= i < |field| ==> spaced[i] == if field[i] == '_' then ' ' else field[i] by {
      forall i | 0 <= i < |field| ensures spaced[i] == if field[i] == '_' then ' ' else field[i] {
        ReplaceCharAt(field, '_', ' ', i);
      }
    }
    Capitalize(spaced)
  }

  /** One payload line: "<Label>: <value>". */
  function FieldLine(data: Record, field: string): string
    requires field in data
  {
    Label(field) + ": " + data[field]
  }

  /** The allow-listed fields that `data` holds, in allow-list order. */
  function PresentFields(data: Record, fields: seq<string>): (present: seq<string>)
    ensures |present| <= |fields|
    ensures forall f :: f in present <==> f in fields && f in data
    decreases |fields|
  {
    if |fields| == 0 then []
    else
      var n := |fields| - 1;
      assert fields == fields[..n] + [fields[n]];
      PresentFields(data, fields[..n]) + (if fields[n] in data then [fields[n]] else [])
  }

  /** The lines of the given present fields. */
  function FieldLines(data: Record, present: seq<string>): (lines: seq<string>)
    requires forall f :: f in present ==> f in data
  {
    seq(|present|, k requires 0 <= k < |present| => FieldLine(data, present[k]))
  }

  /** The payload lines before joining: one per present field, then the issuer. */
  function PayloadLines(data: Record, fields: seq<string>): seq<string>
  {
    FieldLines(data, PresentFields(data, fields)) + [Issuer]
  }

  /** qr_string: walks the allow-list, appends a line for every field the
      record holds, appends the issuer line and joins the lines with newlines. */
  method QrString(data: Record, fields: seq<string>) returns (payload: string)
    ensures payload == Join(PayloadLines(data, fields), '\n')
  {
    var lines: seq<string> := [];
    for i := 0 to |fields|
      invariant lines == FieldLines(data, PresentFields(data, fields[..i]))
    {
      assert fields[..i + 1][..i] == fields[..i];
      if fields[i] in data {
        lines := lines + [FieldLine(data, fields[i])];
      }
    }
    assert fields[..|fields|] == fields;
    lines := lines + [Issuer];
    payload := Join(lines, '\n');
  }

  /** Filtering the allow-list distributes over concatenation: the lines of an
      earlier part of the list precede those of a later part. */
  lemma {:induction false} PresentFieldsAppend(data: Record, a: seq<string>, b: seq<string>)
    ensures PresentFields(data, a + b) == PresentFields(data, a) + PresentFields(data, b)
    decreases |b|
  {
    if |b| == 0 {
      assert a + b == a;
    } else {
      var n := |b| - 1;
      assert (a + b)[..|a + b| - 1] == a + b[..n];
      PresentFieldsAppend(data, a, b[..n]);
    }
  }

  /** Payload lines keep allow-list order: the lines of a leading part of the
      allow-list come first, followed by the payload of the rest. */
  lemma PayloadOrder(data: Record, a: seq<string>, b: seq<string>)
    ensures PayloadLines(data, a + b)
         == FieldLines(data, PresentFields(data, a)) + PayloadLines(data, b)
  {
    PresentFieldsAppend(data, a, b);
    FieldLinesAppend(data, PresentFields(data, a), PresentFields(data, b));
  }

  /** The lines of two runs of fields are the lines of the first, then those of the second. */
  lemma FieldLinesAppend(data: Record, p: seq<string>, q: seq<string>)
    requires forall f :: f in p ==> f in data
    requires forall f :: f in q ==> f in data
    ensures FieldLines(data, p + q) == FieldLines(data, p) + FieldLines(data, q)
  {
    var l, lp, lq := FieldLines(data, p + q), FieldLines(data, p), FieldLines(data, q);
    forall k | 0 <= k < |l| ensures l[k] == (lp + lq)[k] {
      if k < |p| {
        assert (p + q)[k] == p[k];
      } else {
        assert (p + q)[k] == q[k - |p|];
      }
    }
  }

  /** Filtering drops a field the record lacks without disturbing the rest. */
  lemma PresentFieldsSkip(data: Record, fields: seq<string>, i: nat)
    requires i < |fields| && fields[i] !in data
    ensures PresentFields(data, fields) == PresentFields(data, fields[..i] + fields[i + 1..])
  {
    var pre, post := fields[..i], fields[i + 1..];
    assert fields == pre + ([fields[i]] + post);
    PresentFieldsAppend(data, pre, [fields[i]] + post);
    PresentFieldsAppend(data, [fields[i]], post);
    PresentFieldsSingle(data, fields[i]);
    assert [] + PresentFields(data, post) == PresentFields(data, post);
    PresentFieldsAppend(data, pre, post);
  }

  /** A trailing field the record holds is the last one selected. */
  lemma PresentFieldsLast(data: Record, fields: seq<string>)
    requires |fields| > 0 && fields[|fields| - 1] in data
    ensures PresentFields(data, fields)
         == PresentFields(data, fields[..|fields| - 1]) + [fields[|fields| - 1]]
  {
  }

  /** When the record holds the last two fields of the allow-list, the
      payload ends with their two lines and then the issuer line. */
  lemma PayloadLastTwo(data: Record, fields: seq<string>)
    requires |fields| >= 2 && fields[|fields| - 2] in data && fields[|fields| - 1] in data
    ensures var lines := PayloadLines(data, fields);
      && |lines| >= 3
      && lines[|lines| - 3] == FieldLine(data, fields[|fields| - 2])
      && lines[|lines| - 2] == FieldLine(data, fields[|fields| - 1])
      && lines[|lines| - 1] == Issuer
  {
    var init := fields[..|fields| - 1];
    PresentFieldsLast(data, fields);
    PresentFieldsLast(data, init);
    var present := PresentFields(data, fields);
    assert present[|present| - 2] == fields[|fields| - 2];
  }

  lemma PresentFieldsSingle(data: Record, f: string)
    ensures PresentFields(data, [f]) == if f in data then [f] else []
  {
    assert [f][..0] == [];
  }

  /** A field the record lacks leaves no line and no gap: the payload is the
      one of the allow-list without that field. */
  lemma PayloadSkipsAbsent(data: Record, fields: seq<string>, i: nat)
    requires i < |fields| && fields[i] !in data
    ensures PayloadLines(data, fields) == PayloadLines(data, fields[..i] + fields[i + 1..])
  {
    PresentFieldsSkip(data, fields, i);
  }

  /** A field the record holds contributes exactly its line. */
  lemma PayloadKeepsPresent(data: Record, field: string)
    requires field in data
    ensures PayloadLines(data, [field]) == [Label(field) + ": " + data[field], Issuer]
  {
    assert [field][..0] == [];
  }

  /** The payload has one line per present field plus the issuer line, which is
      always last, so the payload is never empty and ends with the issuer. */
  lemma {:induction false} PayloadShape(data: Record, fields: seq<string>)
    ensures |PayloadLines(data, fields)| == |PresentFields(data, fields)| + 1
    ensures PayloadLines(data, fields)[|PayloadLines(data, fields)| - 1] == Issuer
    ensures EndsWith(Join(PayloadLines(data, fields), '\n'), Issuer)
  {
    JoinEndsWith(PayloadLines(data, fields), '\n');
  }

  /** A line holds a newline only if its field name or value does. */
  lemma FieldLineNoNewline(data: Record, f: string)
    requires f in data && '\n' !in f && '\n' !in data[f]
    ensures '\n' !in FieldLine(data, f)
  {
    var caption := Label(f);
    forall i | 0 <= i < |caption| ensures caption[i] != '\n' {
      assert f[i] in f;
    }
  }

  /** When no field name and no value holds a newline, no payload line does. */
  lemma PayloadLinesNoNewline(data: Record, fields: seq<string>, k: nat)
    requires forall f :: f in fields ==> '\n' !in f
    requires forall f :: f in data ==> '\n' !in data[f]
    requires k < |PayloadLines(data, fields)|
    ensures '\n' !in PayloadLines(data, fields)[k]
  {
    var present := PresentFields(data, fields);
    if k < |present| {
      assert present[k] in present;
      FieldLineNoNewline(data, present[k]);
    } else {
      IssuerNoNewline();
    }
  }

  lemma IssuerNoNewline()
    ensures '\n' !in Issuer
  {
    assert '\n' !in "Issued by: ";
    assert '\n' !in "Indian Institute";
    assert '\n' !in " of Information";
    assert '\n' !in " Technology Dharwad";
  }

  /** When no field name and no value holds a newline, splitting the payload at
      newlines gives back exactly its lines. */
  lemma PayloadRoundTrip(data: Record, fields: seq<string>)
    requires forall f :: f in fields ==> '\n' !in f
    requires forall f :: f in data ==> '\n' !in data[f]
    ensures Split(Join(PayloadLines(data, fields), '\n'), '\n') == PayloadLines(data, fields)
  {
    var lines := PayloadLines(data, fields);
    forall k | 0 <= k < |lines|
      ensures '\n' !in lines[k]
    {
      PayloadLinesNoNewline(data, fields, k);
    }
    SplitJoin(lines, '\n');
  }

  // ---------------------------------------------------------------- pdf_overlay

  /** pikepdf.Rectangle(llx, lly, urx, ury) */
  datatype Rect = Rect(llx: int, lly: int, urx: int, ury: int)

  const DefaultX1: int := 65
  const DefaultY1: int := 230
  const DefaultSize: int := 60

  /** What pdf_overlay does apart from reading and writing PDF files: the file
      it writes, whether that file may be the one it read, the rectangle the QR
      page is placed in, and the QR file it deletes. */
  datatype OverlayPlan = OverlayPlan(output: string, allowOverwrite: bool, rect: Rect, removed: Path)

  function PdfOverlay(pdfCert: string, pdfQr: StrOrPath, pdfWithQr: string, x1: int, y1: int, size: int)
    : (plan: OverlayPlan)
    ensures pdfWithQr == "" ==> plan.output == pdfCert
    ensures pdfWithQr != "" ==> plan.output == pdfWithQr
    ensures plan.allowOverwrite <==> plan.output == pdfCert
    ensures plan.rect.llx == x1 && plan.rect.lly == y1
    ensures plan.rect.urx - plan.rect.llx == size && plan.rect.ury - plan.rect.lly == size
    ensures plan.removed == Str2Path(pdfQr)
  {
    var qr := Str2Path(pdfQr);
    var output := if pdfWithQr == "" then pdfCert else pdfWithQr;
    OverlayPlan(output, pdfCert == output, Rect(x1, y1, x1 + size, y1 + size), qr)
  }

  /** Called with its defaults, pdf_overlay overwrites the certificate and
      places the QR page in the 60-point square whose lower-left corner is
      (65, 230). */
  lemma PdfOverlayDefaults(pdfCert: string, pdfQr: StrOrPath)
    ensures PdfOverlay(pdfCert, pdfQr, "", DefaultX1, DefaultY1, DefaultSize)
         == OverlayPlan(pdfCert, true, Rect(65, 230, 125, 290), Str2Path(pdfQr))
  {
  }
}
