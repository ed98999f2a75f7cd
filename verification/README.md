# Internship certificate generator — Dafny model

This project models the logic of a small script suite that produces
internship certificates for the Indian Institute of Information Technology
Dharwad. The document, PDF and QR work is done by libraries. Around that
work the suite applies a few sequential rules, and this model covers them:

- **Numbering** (`gencert.py`).
  - `gen_cert_number` moves a `(year in use, last number)` state forward.
    A later calendar year starts a new series at 1. Any other year continues
    the current series.
  - The batch loop of `main` threads that state through the cleaned records.
    It writes each record's `YYYY/NNNN` number, the certificate date and the
    owner password into the record in place.
  - It builds the docx and PDF file names from the number and a mangled
    student name.
- **Record cleaning** (`clean_data` in `gencert.py`).
  - The gender is reduced to its upper-cased initial.
  - The salutation matched by `^[M]{1}[rs]{1}[s]*\.[ ]*` is stripped into
    `bare_name`.
  - `mod_name` puts the salutation that matches the gender into `slaut_name`.
  - Four pipeline fields are set blank.
- **Verification payload** (`qr_string`, which `gencert.py` and `qr_gen.py`
  both define, word for word).
  - It walks an allow-list of fields and emits one `"<Label>: <value>"` line
    for each field the record holds.
  - It then appends the issuer line and joins the lines with newlines.
- **Names** (`cert_util.py`, `gencert.py`).
  - `mod_name` and `name_salutation` put a salutation in front of a name.
  - `mangle_name` turns a name into a file-name fragment.
- **Overlay placement** (`qr_gen.py`).
  - `pdf_overlay` chooses its output file and the overwrite flag, and places
    the QR page in a square.
  - `str2path` converts a string argument to a path.

Layout:

- `pylib.dfy` (module `PyLib`) states the Python behaviour the scripts rely
  on, for ASCII text. It covers `str.replace`, `lower`, `upper`,
  `capitalize`, `strip`, `startswith`, `"\n".join` and `split`, the format
  specs `{:4d}` and `{:04d}`, and `pathlib`'s `.name` and `.with_suffix`.
- `qr_gen.dfy` (`QrGen`), `cert_util.dfy` (`CertUtil`) and `gencert.dfy`
  (`GenCert`) follow the three source files.

`gencert.py` repeats `mod_name` and `qr_string` from the other two files.
Each is modelled once, by `CertUtil.ModName` and `QrGen.QrString`.

Modelling choices:

- The clock becomes a parameter. `datetime.now().year` is a sequence
  `clock` with one observed year per `gen_cert_number` call. This lets a
  batch cross a year boundary.
- `secrets.token_hex` becomes a parameter. The random passwords arrive as a
  sequence `tokens`.
- A record is a `map<string, string>`. The list of records is an `array`
  that the batch loop updates in place.
- Python exceptions are modelled as `Err` values rather than as
  preconditions:
  - `IndexError` for an empty gender;
  - `UnboundLocalError` for an empty pattern list in `name_salutation`;
  - `KeyError` for a missing column;
  - `TypeError` for an empty gender in `clean_data`, where the pandas `.str`
    accessor yields NaN and `mod_name` then cannot index it.

## Model

| member | source | states |
|---|---|---|
| GenCert.GenCertNumber | gencert.py:74-82 | A year later than the one in use gives (that year, 1). Any other year, an earlier one included, gives (year in use, number + 1). The result is lexicographically after the input state, and the year changes exactly when the clock shows a later year. |
| GenCert.Thread | gencert.py:250-251 | The state after one `gen_cert_number` call per observed year is strictly after the start state whenever at least one call was made. |
| GenCert.ThreadCompose | gencert.py:250-251 | Threading two runs one after the other gives the same state as one run over both, so numbering resumes where the last batch stopped. |
| GenCert.ThreadIncreasing | gencert.py:250-251 | The state after j calls is strictly after the state after i calls, for every i < j. |
| GenCert.ThreadFixedYear | gencert.py:74-82 | With a fixed year y, the state after k calls is (y, k) when y is later than the year in use, and (year in use, last number + k) otherwise: a restart at 1 happens only by rollover. |
| GenCert.Numbers | gencert.py:250-251 | One number per call. The last number handed out equals the final `(cert_year, cert_num)` state. |
| GenCert.NumbersThread | gencert.py:250-251 | The k-th number handed out is the state after k + 1 calls. |
| GenCert.NumbersIncreasing | gencert.py:250-251 | The numbers of one batch strictly increase, so no two are equal. |
| GenCert.NumbersFixedYear | gencert.py:250-251 | With a fixed year, the k-th number of the batch is k + 1 in a new series, or the (k + 1)-th number after the last one issued. |
| GenCert.NumbersConsecutive | gencert.py:250-251 | With a fixed year, each number after the first is the previous one plus one, in the same year: no gaps. |
| GenCert.FormatCertNumber | gencert.py:252 | The `{:4d}/{:04d}` rendering of a number. It has no contract of its own; FormatShape, FormatRoundTrip, FormatInjective and FormatChars carry its promises. |
| GenCert.FilePrefix | gencert.py:254 | The printed number with '/' replaced by '_'. PrefixRoundTrip, PrefixChars, PrefixLength and PrefixDistinct carry its promises. |
| GenCert.FormatShape | gencert.py:252 | For a four-digit year and a number up to 9999, the certificate number is 9 characters: four digits, '/' at index 4, then four digits. |
| GenCert.FormatRoundTrip | gencert.py:252 | In that range, the printed certificate number parses back to the number it was printed from. |
| GenCert.FormatInjective | gencert.py:252 | In that range, different numbers print differently. |
| GenCert.PrefixRoundTrip | gencert.py:254 | The file prefix is the printed number with '_' in place of '/', and it parses back to the number. |
| GenCert.PrefixChars | gencert.py:254 | The file prefix holds neither '/' nor '.', whatever the number. |
| GenCert.PrefixDistinct | gencert.py:252-254 | In range, different numbers have different file prefixes. |
| GenCert.MangleName | gencert.py:176-184 | The replace-and-lower chain of `mangle_name`, as the stages Unsalute then Underscore. MangleProperties and MangleIdempotent carry its promises. |
| GenCert.MangleProperties | gencert.py:176-184 | A mangled name holds no ' ', no '.' and no upper-case letter. It is no longer than the name. Each of its characters other than '_' comes from the lower-cased name. |
| GenCert.MangleIdempotent | gencert.py:176-184 | Mangling a mangled name changes nothing. |
| GenCert.UnsaluteProperties | gencert.py:178-180 | Dropping "Mr. " and "Ms. " and lower-casing never lengthens the name. It leaves no upper-case letter and brings in no character outside the lower-cased name. |
| GenCert.UnderscoreProperties | gencert.py:181-183 | Replacing ". ", "." and " " with "_" leaves no ' ' and no '.'. It never lengthens the text and adds no character but '_'. |
| GenCert.DocxName | gencert.py:255-257 | `Path(f"int_cert_{prefix}_{mangled}.docx").name`. OutputNames, OutputNamesDistinct and SlashNameCollision carry its promises. |
| GenCert.PdfName | gencert.py:258 | `Path(docx_output).with_suffix(".pdf").name`. OutputNames, OutputNamesDistinct and SlashNameCollision carry its promises. |
| GenCert.StemFileNames | gencert.py:255-258 | A file-name fragment without '/' or '.' gives a stem that is its own docx name, and whose PDF name is the stem with `.pdf`. |
| GenCert.OutputNames | gencert.py:254-258 | For a student name without '/', the docx name is `int_cert_<prefix>_<mangled name>.docx` and the PDF name is the same stem with `.pdf`. |
| GenCert.OutputNamesDistinct | gencert.py:254-258 | For student names without '/', two different in-range numbers never give the same docx name or the same PDF name. |
| GenCert.StemsDistinct | gencert.py:254-258 | In range, the stems of two different numbers differ whatever the fragments, and so do the `.docx` and `.pdf` names made of them. |
| GenCert.SlashNameCollision | gencert.py:255-258 | As written, the students "A/B" and "C/B" both get `b.docx` and `b.pdf`, whatever their numbers. |
| GenCert.SafeOutputNames | gencert.py:255-258 | With '/' also mapped to '_', every student name gives the full stem with `.docx` and `.pdf`. |
| GenCert.SafeOutputNamesDistinct | gencert.py:255-258 | With '/' also mapped to '_', two different in-range numbers never share a docx or PDF name, whatever the student names. |
| GenCert.SafeNamesAgree | gencert.py:255-258 | For student names without '/', the corrected names equal the names `main` builds. |
| GenCert.SalutationLength | gencert.py:59 | The length of the match of `^[M]{1}[rs]{1}[s]*\.[ ]*`, or 0. StripSalutationMatch and StripSalutationUnchanged carry its promises. |
| GenCert.StripSalutation | gencert.py:58-60 | The bare name is a suffix of the student name. A name that does not start with 'M' is left unchanged. |
| GenCert.StripSalutationMatch | gencert.py:58-60 | When the name starts with 'M', 'r' or 's', a run of 's' and a '.', exactly that head and the whole run of spaces after it are removed. |
| GenCert.StripSalutationUnchanged | gencert.py:58-60 | The name is returned unchanged exactly when it does not start with that head, so no name the pattern does not match is shortened. |
| GenCert.SalutationMatch | gencert.py:58-60 | The pattern removes "Mr. ", "Ms. " and "Mrs. " in full from a name that continues without a space. |
| GenCert.StripModName | gencert.py:43-50 | For a gender starting with 'M' or 'F' and a bare name that does not start with a space, stripping undoes `mod_name`. |
| GenCert.CleanRow | gencert.py:57-65 | The cleaned row has the old keys plus the six added columns. The gender is its upper-cased initial. `bare_name` is the regular-expression strip of the student name, and so a suffix of it. `slaut_name` is `mod_name` of those two. The four pipeline fields are blank. Every other field is unchanged. |
| GenCert.CleanData | gencert.py:53-71 | A missing column fails with KeyError, naming the first missing one in the order start_date, end_date, gender, student_name. The result is Ok exactly when all four columns are present and no gender is empty; otherwise, with the columns present, it fails with TypeError. On success there is one record per row: that row with the per-row rules applied, holding the old columns plus the added ones. |
| GenCert.CleanSalutation | gencert.py:57-61 | A name given as "Mr. ", "Ms. " or "Mrs. " plus a bare name that does not start with a space is re-saluted by gender: "Mr. " for 'm' or 'M', "Ms. " for 'f' or 'F'. |
| GenCert.Stamp | gencert.py:252-253 | The stamped record carries the printed number, the certificate date and the password. Every other field is unchanged. |
| GenCert.Password | gencert.py:141-173 | The owner password `gen_cert` returns: the drawn token on a final run, "" otherwise. It is used in NumberCertificates' contract. |
| GenCert.StampRecord | gencert.py:251-265 | One pass of the loop body. Only record i changes, and it becomes its stamp. The docx and PDF names returned are those built from the number and the original student name. |
| GenCert.NumberCertificates | gencert.py:250-265 | After the loop, record i is its original stamped with the i-th number of the batch, the certificate date, and the token (final run) or "" (draft run). The returned state is the one after all calls. |
| GenCert.BatchDistinct | gencert.py:250-258 | Within a batch whose numbers are in range, certificate numbers, docx names and PDF names are pairwise distinct, for student names without '/'. |
| GenCert.StampedPayload | gencert.py:102-116 | The QR payload of a stamped record ends with its certificate-date line, then its certificate-number line with the printed number, then the issuer line. |
| GenCert.GenCertOverlay | gencert.py:161-168 | `gen_cert` overlays the certificate named by `pdf_outputpath.name` in place. The overwrite flag is on, the QR square is 72 points wide with its lower-left corner at (72, 72), and the file deleted is `Path("qr.png").with_suffix(".pdf").name`, which is `qr.pdf`. |
| QrGen.Str2Path | qr_gen.py:10-11 | A path is passed through, and a string is wrapped as a path to that text. |
| QrGen.Str2PathIdempotent | qr_gen.py:10-11 | Converting an already converted argument gives the same path. |
| QrGen.Label | qr_gen.py:19 | The label has the field's length and no '_'; it is the field with spaces for underscores, read case-insensitively. Its first character is not lower case and no later character is upper case. |
| QrGen.PresentFields | qr_gen.py:16-18 | A field is selected exactly when it is in the allow-list and in the record. |
| QrGen.FieldLine | qr_gen.py:19 | One payload line `<Label>: <value>`. PayloadKeepsPresent and FieldLineNoNewline carry its promises. |
| QrGen.PayloadLines | qr_gen.py:17-20 | The lines before joining. PayloadShape, PayloadOrder, PayloadSkipsAbsent, PayloadLastTwo and PayloadRoundTrip carry its promises. |
| QrGen.QrString | qr_gen.py:14-21 | The payload is the newline-join of one line per present field, in allow-list order, followed by the issuer line. |
| QrGen.PayloadOrder | qr_gen.py:17-19 | The lines from an earlier part of the allow-list come before the payload of the rest. |
| QrGen.PayloadSkipsAbsent | qr_gen.py:17-19 | A field the record lacks leaves no line and no gap: the payload equals that of the allow-list without it. |
| QrGen.PayloadKeepsPresent | qr_gen.py:18-19 | A present field contributes exactly the line `<Label>: <value>`. |
| QrGen.PayloadLastTwo | qr_gen.py:17-21 | When the record holds the last two allow-listed fields, the payload ends with their two lines and then the issuer line. |
| QrGen.PayloadShape | qr_gen.py:20-21 | There is one line per present field plus one. The issuer line is always last, even with no field present, so the payload ends with it and is never empty. |
| QrGen.PayloadRoundTrip | qr_gen.py:21 | When no field name or value holds a newline, splitting the payload at newlines gives back exactly its lines. |
| QrGen.PdfOverlay | qr_gen.py:39-61 | An empty output name means the input file. The overwrite flag is on exactly when output and input coincide. The rectangle has its lower-left corner at (x1, y1) and width and height equal to `size`. The deleted QR file is the converted QR path. |
| QrGen.PdfOverlayDefaults | qr_gen.py:39-57 | With its default arguments, `pdf_overlay` overwrites the certificate and places the QR page in the 60-point square at (65, 230). |
| CertUtil.ModName | cert_util.py:37-44 | An empty gender fails with IndexError. An initial of exactly 'M' gives "Mr. " + name, exactly 'F' gives "Ms. " + name, and anything else the bare name. The result always ends with the bare name. |
| CertUtil.Salute | cert_util.py:28-34 | An upper-cased initial 'M' gives "Mr. ", 'F' gives "Ms. ". Otherwise the result is salut + " " + name, or the bare name when salut is empty. It always ends with the bare name. |
| CertUtil.StripPattern | cert_util.py:22-26 | One loop iteration: the name without the pattern, stripped, when it starts with it, else the name. SalutedNameEndsWithBare and NameSalutation carry its promises. |
| CertUtil.SalutedName | cert_util.py:21-34 | The closed form of `name_salutation`. NameSalutation is proved equal to it, and SalutedNameEndsWithBare and DoubledSalutation are stated over it. |
| CertUtil.NameSalutation | cert_util.py:18-34 | The result is the modelled `name_salutation`. An empty gender gives IndexError and an empty pattern list gives UnboundLocalError. With patterns present, the result equals the result for the last pattern alone. |
| CertUtil.SalutedNameEndsWithBare | cert_util.py:28-34 | With a gender and at least one pattern, the result succeeds and ends with the bare name the last pattern leaves. |
| CertUtil.ModNameCaseSensitive | cert_util.py:28 | A lower-case 'm' or 'f' leaves the name bare in `mod_name`, which compares case-sensitively (cert_util.py:37-44). `name_salutation` upper-cases the gender first and salutes it. |
| CertUtil.DoubledSalutation | cert_util.py:47-50 | With the demo patterns, "Mr. " + rest and a male gender give "Mr. Mr. " + rest. |
| CertUtil.FirstMatchBare | cert_util.py:21-26 | The corrected loop, which strips the first matching pattern. FirstMatchBareRemovesFirst and NoDoubledSalutation carry its promises. |
| CertUtil.FirstMatchBareRemovesFirst | cert_util.py:21-24 | In the corrected loop, the first pattern the name starts with is the one removed. |
| CertUtil.NoDoubledSalutation | cert_util.py:21-32 | In the corrected loop, a name carrying "Mr.", "Ms.", "Mrs." or "Dr." and a male gender gives exactly "Mr. " + the rest. |

## Left out

- File, document and PDF work is left out: `read_df` and the pandas reading, `merge_docx` (MailMerge), the LibreOffice conversion, `make_qr` (segno), `png2pdf` (PIL), the pikepdf overlay itself and `encrypt_pdf`. Only the plan `pdf_overlay` computes is modelled.
- `gen_cert` is not modelled as a whole. Its overlay placement and the password it returns are modelled, by `GenCert.GenCertOverlay` and the `tokens` parameter of `GenCert.NumberCertificates`.
- The command line (click), the toml configuration and the CSV ledger (gencert.py:187-239, 269-277) are I/O and are left out. Two defects there are noted but not modelled:
  - `config` is undefined when no configuration file exists;
  - the configuration is written to `internship_cert.toml` but read from `gencert.toml`.
- Dates are parameters. `datetime.now()` becomes the `clock` sequence. The `strftime` and `strptime` date strings (gencert.py:55-56, 214-218) stay strings and are passed through unchanged.
- `secrets.token_hex` is random. The password is an arbitrary string taken from `tokens`.
- The console output (gencert.py:242-249, 259-260, 266-267) is left out. So is the KeyError that line 259 raises for a record without `supervisor_name`.
- The `set_index` call in `clean_data` (gencert.py:67-69) is left out. `to_dict(orient="records")` discards the index, so it has no effect on the result.
- Platform detection and the LibreOffice path (gencert.py:16-25) are left out.
- Text is ASCII only. Unicode case mapping, and characters that change length under `lower` or `upper`, are not modelled.
- `CertUtil.NameSalutation`: the patterns are regular expressions in the source. The model requires that they use no metacharacter other than '.', and treats them as literal prefixes.
- `GenCert.CleanData`: pandas specifics are not modelled, among them NaN values, column dtypes and an empty frame's `.str` accessor. A row is a map holding exactly the table's columns.
- `GenCert.NumberCertificates`: it does not return the docx and PDF names of each pass. `GenCert.StampRecord` states them for each record, and the loop hands them to `gen_cert`.
- `PyLib.BaseName` models POSIX paths. Windows separators are not modelled.
- `QrGen.Path` holds the text it was made from. pathlib's normalisation is not modelled: `Path("")` is `.`, and repeated or trailing separators are collapsed.
- `GenCert.NumberCertificates` and `GenCert.StampRecord` build the file names as `main` does, with the '/' collision of the finding below. The corrected names are `GenCert.SafeDocxName` and `GenCert.SafePdfName`.

## Findings

| source | as written | input that shows it | evidently intended | confidence | as-written member | corrected member |
|---|---|---|---|---|---|---|
| cert_util.py:21-26 | Every loop iteration reassigns `bare_name`, so only the last pattern decides. A name matching an earlier pattern keeps its salutation. | `name_salutation("Mr. Satish Annigeri", "m", ["Mr.", "Ms.", "Mrs.", "Dr."])` gives "Mr. Mr. Satish Annigeri" | Remove the first pattern the name starts with, giving "Mr. Satish Annigeri" | not executed | CertUtil.DoubledSalutation | CertUtil.NoDoubledSalutation |
| gencert.py:255-258 | `mangle_name` keeps a '/', and `Path(...).name` drops everything up to the last '/', number prefix included. | Students "A/B" and "C/B" numbered 2024/0001 and 2024/0002 both get `b.docx` and `b.pdf`; the second overwrites the first. | Every certificate file name keeps its number prefix, for example by mapping '/' to '_' in the name fragment. | not executed | GenCert.SlashNameCollision | GenCert.SafeOutputNamesDistinct |
