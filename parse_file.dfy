/**
  The ingestion pipeline of `src/utils/parseFile.ts`, from the rows a decoder has
  produced to the `{data, errors}` result: header mapping through the alias table,
  the required-column check, row coercion, the post-decode decision chain of the
  CSV and XLSX paths, and the dispatch on the file extension.

  Decoding itself (the spreadsheet and CSV libraries, the file reader) is not
  modelled: a decoder's outcome is an input, `Decoded`.
 */
module ParseFile {
  import opened Wrappers
  import opened Strings
  import opened Normalize
  import opened Types

  // ---------------------------------------------------------------------------
  // The alias table (COLUMN_MAPPING)
  // ---------------------------------------------------------------------------

  /** The canonical columns, the keys of the alias table. */
  datatype Field =
    | CodigoRevendedor | Nome | CPFCNPJ | Situacao | CodigoEstrutura
    | TelResidencial | TelCelular | Cidade

  /** The key of a canonical column, as the error message spells it. */
  function FieldName(f: Field): string
  {
    match f
    case CodigoRevendedor => "CodigoRevendedor"
    case Nome => "Nome"
    case CPFCNPJ => "CPFCNPJ"
    case Situacao => "Situacao"
    case CodigoEstrutura => "CodigoEstrutura"
    case TelResidencial => "TelResidencial"
    case TelCelular => "TelCelular"
    case Cidade => "cidade"
  }

  /** The columns in the table's declaration order. */
  const Fields: seq<Field> :=
    [CodigoRevendedor, Nome, CPFCNPJ, Situacao, CodigoEstrutura, TelResidencial, TelCelular, Cidade]

  /** The accepted header spellings of a column, already lower-case and trimmed, in order of preference. */
  function Aliases(f: Field): (vs: seq<string>)
    ensures forall k :: 0 <= k < |vs| ==> vs[k] != ""
  {
    match f
    case CodigoRevendedor => ["codigorevendedor", "codigo_revendedor", "cod_revendedor", "codigo revendedor"]
    case Nome => ["nome", "name", "razao social", "razaosocial"]
    case CPFCNPJ => ["cpfcnpj", "cpf/cnpj", "cpf_cnpj", "cpf cnpj", "documento"]
    case Situacao => ["situacao", "situação", "status", "situacao_cadastral"]
    case CodigoEstrutura =>
      ["codigoestrutura", "codigo_estrutura", "cod_estrutura", "codigo estrutura", "estrutura",
       "codigoestruturacomercial", "codigoestrutura_comercial", "codigo_estrutura_comercial",
       "codigo estrutura comercial", "estruturacomercial", "estrutura_comercial", "estrutura comercial"]
    case TelResidencial =>
      ["telresidencial", "tel_residencial", "telefone_residencial", "tel residencial", "fone residencial"]
    case TelCelular =>
      ["telcelular", "tel_celular", "telefone_celular", "tel celular", "celular", "fone celular"]
    case Cidade => ["cidade", "city", "municipio", "município"]
  }

  // ---------------------------------------------------------------------------
  // Decoded rows
  // ---------------------------------------------------------------------------

  /**
    A decoded row: header/cell pairs in the order the decoder enumerates the
    row's keys. The headers of a file are those of its first row.
   */
  type Row = seq<(string, string)>

  /** `Object.keys(row)`. */
  function Headers(row: Row): (hs: seq<string>)
    ensures |hs| == |row|
    ensures forall i :: 0 <= i < |row| ==> hs[i] == row[i].0
  {
    seq(|row|, i requires 0 <= i < |row| => row[i].0)
  }

  /** `row[key]`: the cell under `key`, if the row has that header. */
  function Get(row: Row, key: string): (v: Option<string>)
    ensures v.None? <==> forall i :: 0 <= i < |row| ==> row[i].0 != key
    ensures v.Some? ==> (key, v.value) in row
  {
    if row == [] then None
    else if row[0].0 == key then Some(row[0].1)
    else Get(row[1..], key)
  }

  // ---------------------------------------------------------------------------
  // findColumnName
  // ---------------------------------------------------------------------------

  /** `h.toLowerCase().trim()`: the form a header is compared in. */
  function NormHeader(h: string): string
  {
    Trim(Lower(h))
  }

  function NormalizedHeaders(headers: seq<string>): (ns: seq<string>)
    ensures |ns| == |headers|
    ensures forall i :: 0 <= i < |headers| ==> ns[i] == NormHeader(headers[i])
  {
    seq(|headers|, i requires 0 <= i < |headers| => NormHeader(headers[i]))
  }

  /** `xs.indexOf(x)`: the first position of `x`, or -1. */
  function IndexOf(xs: seq<string>, x: string): (i: int)
    ensures -1 <= i < |xs|
    ensures i == -1 <==> x !in xs
    ensures 0 <= i ==> xs[i] == x && x !in xs[..i]
  {
    if xs == [] then -1
    else if xs[0] == x then 0
    else
      var j := IndexOf(xs[1..], x);
      if j == -1 then -1
      else
        assert xs[..j + 1] == [xs[0]] + xs[1..][..j];
        j + 1
  }

  /**
    The header that `findColumnName` settles on: the variations are tried in order,
    and the first one that equals some normalised header selects the first such
    header, in its original spelling.
   */
  function ColumnName(headers: seq<string>, variations: seq<string>): (r: Option<string>)
    ensures r.Some? ==> r.value in headers && NormHeader(r.value) in variations
  {
    if variations == [] then None
    else
      var i := IndexOf(NormalizedHeaders(headers), variations[0]);
      if i != -1 then Some(headers[i]) else ColumnName(headers, variations[1..])
  }

  /** `findColumnName`: the loop over the variations with its early return. */
  method FindColumnName(headers: seq<string>, variations: seq<string>) returns (found: Option<string>)
    ensures found == ColumnName(headers, variations)
  {
    var normalizedHeaders := NormalizedHeaders(headers);
    for j := 0 to |variations|
      invariant ColumnName(headers, variations[j..]) == ColumnName(headers, variations)
    {
      assert variations[j..][1..] == variations[j + 1..];
      var index := IndexOf(normalizedHeaders, variations[j]);
      if index != -1 {
        return Some(headers[index]);
      }
    }
    return None;
  }

  /**
    What `ColumnName` means: nothing is found iff no variation equals a normalised
    header; otherwise the result is the header at the first position holding the
    first variation that occurs.
   */
  lemma {:induction false} ColumnNameFirstMatch(headers: seq<string>, variations: seq<string>)
    ensures var r, ns := ColumnName(headers, variations), NormalizedHeaders(headers);
      && (r.None? <==> forall k :: 0 <= k < |variations| ==> variations[k] !in ns)
      && (r.Some? ==>
            exists k :: 0 <= k < |variations| && variations[k] in ns
              && (forall k' :: 0 <= k' < k ==> variations[k'] !in ns)
              && r.value == headers[IndexOf(ns, variations[k])])
  {
    var ns := NormalizedHeaders(headers);
    if variations != [] && variations[0] !in ns {
      var tail := variations[1..];
      ColumnNameFirstMatch(headers, tail);
      var r := ColumnName(headers, variations);
      assert r == ColumnName(headers, tail);
      if r.Some? {
        var k :| 0 <= k < |tail| && tail[k] in ns
          && (forall k' :: 0 <= k' < k ==> tail[k'] !in ns)
          && r.value == headers[IndexOf(ns, tail[k])];
        assert variations[k + 1] == tail[k];
        assert forall k' :: 0 <= k' < k + 1 ==> variations[k'] !in ns by {
          forall k' | 0 < k' < k + 1 ensures variations[k'] !in ns {
            assert variations[k'] == tail[k' - 1];
          }
        }
      } else {
        assert forall k :: 0 <= k < |variations| ==> variations[k] !in ns by {
          forall k | 0 < k < |variations| ensures variations[k] !in ns {
            assert variations[k] == tail[k - 1];
          }
        }
      }
    }
  }

  /** A header that matched an alias is never empty, since no alias is. */
  lemma ColumnNameNonEmpty(headers: seq<string>, f: Field)
    requires ColumnName(headers, Aliases(f)).Some?
    ensures ColumnName(headers, Aliases(f)).value != ""
  {
  }

  // ---------------------------------------------------------------------------
  // mapHeaders
  // ---------------------------------------------------------------------------

  /** `if (found)`: a header was found and it is not the (falsy) empty string. */
  predicate Found(headers: seq<string>, f: Field)
  {
    var c := ColumnName(headers, Aliases(f));
    c.Some? && c.value != ""
  }

  /** The mapping `mapHeaders` builds, as a value. */
  function HeaderMapping(headers: seq<string>): (m: map<Field, string>)
    ensures forall f :: f in m ==> m[f] in headers && NormHeader(m[f]) in Aliases(f) && m[f] != ""
  {
    map f | f in Fields && Found(headers, f) :: ColumnName(headers, Aliases(f)).value
  }

  /** The entries of `m` for the columns `fs`: the mapping part-way through the loop. */
  function Restrict(m: map<Field, string>, fs: seq<Field>): (r: map<Field, string>)
    ensures forall f :: f in r ==> f in m && r[f] == m[f]
  {
    map f | f in fs && f in m :: m[f]
  }

  /** Looking at one more column adds its entry, if it has one. */
  lemma RestrictSnoc(m: map<Field, string>, fs: seq<Field>, f: Field)
    ensures Restrict(m, fs + [f]) == if f in m then Restrict(m, fs)[f := m[f]] else Restrict(m, fs)
  {
    assert forall g :: g in fs + [f] <==> g in fs || g == f;
  }

  /** `mapHeaders`: fills the mapping field by field. */
  method MapHeaders(headers: seq<string>) returns (mapping: map<Field, string>)
    ensures mapping == HeaderMapping(headers)
  {
    ghost var full := HeaderMapping(headers);
    mapping := map[];
    for j := 0 to |Fields|
      invariant mapping == Restrict(full, Fields[..j])
    {
      var field := Fields[j];
      assert Fields[..j + 1] == Fields[..j] + [field];
      RestrictSnoc(full, Fields[..j], field);
      var found := FindColumnName(headers, Aliases(field));
      assert field in full <==> found.Some? && found.value != "";
      if found.Some? && found.value != "" {
        mapping := mapping[field := found.value];
      }
    }
    assert Fields[..|Fields|] == Fields;
    RestrictToKeys(full, Fields);
  }

  /** Restricting to a list that covers every key changes nothing. */
  lemma RestrictToKeys(m: map<Field, string>, fs: seq<Field>)
    requires forall f :: f in m ==> f in fs
    ensures Restrict(m, fs) == m
  {
  }

  /** Some header of the file, lower-cased and trimmed, is an alias of `f`. */
  predicate Resolves(headers: seq<string>, f: Field)
  {
    exists i :: 0 <= i < |headers| && NormHeader(headers[i]) in Aliases(f)
  }

  /** One column of `HeaderMappingMeaning`. */
  lemma FieldMappingMeaning(headers: seq<string>, f: Field)
    ensures f in HeaderMapping(headers) <==> Resolves(headers, f)
    ensures f in HeaderMapping(headers) ==>
      var h := HeaderMapping(headers)[f];
      h in headers && NormHeader(h) in Aliases(f) && h != ""
  {
    var ns := NormalizedHeaders(headers);
    var vs := Aliases(f);
    var c := ColumnName(headers, vs);
    assert f in Fields;
    assert f in HeaderMapping(headers) <==> Found(headers, f);
    ColumnNameFirstMatch(headers, vs);
    if c.Some? {
      ColumnNameNonEmpty(headers, f);
      var i :| 0 <= i < |headers| && headers[i] == c.value;
      assert NormHeader(headers[i]) in vs;
    } else {
      NoCommonElement(vs, ns);
    }
  }

  lemma NoCommonElement(xs: seq<string>, ys: seq<string>)
    requires forall k :: 0 <= k < |xs| ==> xs[k] !in ys
    ensures forall i :: 0 <= i < |ys| ==> ys[i] !in xs
  {
  }

  /**
    A column is mapped iff one of the file's headers, lower-cased and trimmed, is
    one of its aliases; it is then mapped to such a header, spelled as in the file.
   */
  lemma HeaderMappingMeaning(headers: seq<string>)
    ensures var m := HeaderMapping(headers);
      && (forall f :: f in m <==> Resolves(headers, f))
      && (forall f :: f in m ==> m[f] in headers && NormHeader(m[f]) in Aliases(f) && m[f] != "")
  {
    forall f
      ensures f in HeaderMapping(headers) <==> Resolves(headers, f)
      ensures f in HeaderMapping(headers) ==>
        var h := HeaderMapping(headers)[f];
        h in headers && NormHeader(h) in Aliases(f) && h != ""
    {
      FieldMappingMeaning(headers, f);
    }
  }

  /** A lone header that is `nome` up to case and surrounding whitespace maps `Nome` to itself. */
  lemma NomeSpelling(h: string)
    requires NormHeader(h) == "nome"
    ensures Nome in HeaderMapping([h]) && HeaderMapping([h])[Nome] == h
  {
    assert NormHeader([h][0]) in Aliases(Nome);
    FieldMappingMeaning([h], Nome);
  }

  /** `NOME`, `nome` and ` Nome ` all name the column `Nome`. */
  lemma NomeSpellings()
    ensures NormHeader("NOME") == "nome" && NormHeader("nome") == "nome" && NormHeader(" Nome ") == "nome"
  {
    NormHeaderOfUpperCase();
    NormHeaderOfPadded();
    LowerOfNoUpper("nome");
    TrimOfTrimmed("nome");
  }

  lemma NormHeaderOfUpperCase()
    ensures NormHeader("NOME") == "nome"
  {
    assert Lower("NOME") == "nome";
    TrimOfTrimmed("nome");
  }

  lemma NormHeaderOfPadded()
    ensures NormHeader(" Nome ") == "nome"
  {
    assert Lower(" Nome ") == [' '] + "nome" + [' '];
    TrimPadded("nome");
  }

  // ---------------------------------------------------------------------------
  // validateRequiredColumns
  // ---------------------------------------------------------------------------

  /** The columns a file must have. */
  const RequiredFields: seq<Field> := [Nome, CodigoEstrutura, Situacao]

  /** `!headerMapping[field]`: no header for the column, or the empty one. */
  predicate Unmapped(mapping: map<Field, string>, f: Field)
  {
    f !in mapping || mapping[f] == ""
  }

  /** The unmapped columns among `fs`, in the order of `fs`. */
  function MissingAmong(mapping: map<Field, string>, fs: seq<Field>): (r: seq<Field>)
    ensures |r| <= |fs|
    ensures forall f :: f in r <==> f in fs && Unmapped(mapping, f)
  {
    if fs == [] then []
    else
      var last := fs[|fs| - 1];
      assert fs == fs[..|fs| - 1] + [last];
      MissingAmong(mapping, fs[..|fs| - 1]) + (if Unmapped(mapping, last) then [last] else [])
  }

  /** `validateRequiredColumns`: pushes each required column that is not mapped. */
  method ValidateRequiredColumns(mapping: map<Field, string>) returns (missing: seq<Field>)
    ensures missing == MissingAmong(mapping, RequiredFields)
  {
    missing := [];
    for j := 0 to |RequiredFields|
      invariant missing == MissingAmong(mapping, RequiredFields[..j])
    {
      var field := RequiredFields[j];
      assert RequiredFields[..j + 1][..j] == RequiredFields[..j];
      if Unmapped(mapping, field) {
        missing := missing + [field];
      }
    }
    assert RequiredFields[..|RequiredFields|] == RequiredFields;
  }

  /** The missing columns keep the order in which they were checked. */
  lemma {:induction false} MissingAmongInOrder(mapping: map<Field, string>, fs: seq<Field>)
    ensures IsSubsequence(MissingAmong(mapping, fs), fs)
  {
    if fs != [] {
      var init, last := fs[..|fs| - 1], fs[|fs| - 1];
      MissingAmongInOrder(mapping, init);
      assert fs[..|fs| - 1] == init;
      if !Unmapped(mapping, last) {
        assert MissingAmong(mapping, fs) == MissingAmong(mapping, init);
        SubsequenceExtend(MissingAmong(mapping, init), init, last);
        assert init + [last] == fs;
      } else {
        var r := MissingAmong(mapping, fs);
        assert r[..|r| - 1] == MissingAmong(mapping, init);
      }
    }
  }

  /**
    The required-column check returns exactly the unmapped columns among `Nome`,
    `CodigoEstrutura` and `Situacao`, in that order: at most three, and none iff
    all three are mapped.
   */
  lemma MissingColumnsMeaning(mapping: map<Field, string>)
    ensures var r := MissingAmong(mapping, RequiredFields);
      && |r| <= 3
      && IsSubsequence(r, RequiredFields)
      && (forall f :: f in r <==> f in RequiredFields && Unmapped(mapping, f))
      && (r == [] <==> !Unmapped(mapping, Nome) && !Unmapped(mapping, CodigoEstrutura) && !Unmapped(mapping, Situacao))
  {
    MissingAmongInOrder(mapping, RequiredFields);
    var r := MissingAmong(mapping, RequiredFields);
    if r != [] {
      assert r[0] in r;
    }
  }

  // ---------------------------------------------------------------------------
  // processData
  // ---------------------------------------------------------------------------

  /**
    The key a column is read under: its mapped header or, for an unmapped column,
    the key "undefined" (JavaScript converts the missing property to that string).
   */
  function LookupKey(mapping: map<Field, string>, f: Field): string
  {
    if f in mapping then mapping[f] else "undefined"
  }

  /** `row[headerMapping.F] || ''`: the cell, or the empty string when the row has none. */
  function CellFor(row: Row, mapping: map<Field, string>, f: Field): (v: string)
    ensures v != "" ==> (LookupKey(mapping, f), v) in row
    ensures (exists i :: 0 <= i < |row| && row[i].0 == LookupKey(mapping, f)) ==> (LookupKey(mapping, f), v) in row
    ensures (forall i :: 0 <= i < |row| ==> row[i].0 != LookupKey(mapping, f)) ==> v == ""
  {
    match Get(row, LookupKey(mapping, f))
    case None => ""
    case Some(v) => v
  }

  /**
    One raw row as a `Reseller`: every column is its cell as text, except that the
    document is laid out by `FormatCpfCnpj`, and `isActive` is derived from the
    status text.
   */
  function Coerce(row: Row, mapping: map<Field, string>): (r: Reseller)
    ensures r.isActive == IsActiveStatus(r.Situacao)
    ensures Digits(r.CPFCNPJ) == Digits(CellFor(row, mapping, CPFCNPJ))
  {
    var document := CellFor(row, mapping, CPFCNPJ);
    FormatCpfCnpjKeepsDigits(document);
    Reseller(
      CodigoRevendedor := CellFor(row, mapping, CodigoRevendedor),
      Nome := CellFor(row, mapping, Nome),
      CPFCNPJ := FormatCpfCnpj(document),
      Situacao := CellFor(row, mapping, Situacao),
      CodigoEstrutura := CellFor(row, mapping, CodigoEstrutura),
      TelResidencial := CellFor(row, mapping, TelResidencial),
      TelCelular := CellFor(row, mapping, TelCelular),
      cidade := CellFor(row, mapping, Cidade),
      isActive := IsActiveStatus(CellFor(row, mapping, Situacao)))
  }

  /** `processData`: one record per row, in row order. */
  function ProcessData(rows: seq<Row>, mapping: map<Field, string>): (data: seq<Reseller>)
    ensures |data| == |rows|
    ensures forall i :: 0 <= i < |rows| ==> data[i] == Coerce(rows[i], mapping)
  {
    seq(|rows|, i requires 0 <= i < |rows| => Coerce(rows[i], mapping))
  }

  // ---------------------------------------------------------------------------
  // After decoding: the shared tail of parseXLSX and parseCSV
  // ---------------------------------------------------------------------------

  /** The two decoders. */
  datatype Format = Csv | Xlsx

  /**
    What a decoder delivered: the rows, a failure to read the file, or an error
    thrown while decoding it.
   */
  datatype Decoded =
    | Rows(rows: seq<Row>)
    | ReadFailed(message: string)
    | DecodeFailed(message: string)

  /** The `{data, errors}` result of an ingestion. */
  datatype Ingestion = Ingestion(data: seq<Reseller>, errors: seq<string>)

  function EmptyFileError(format: Format): (r: string)
    ensures r != "" && r != UnsupportedFormatError
  {
    match format
    case Csv => "Arquivo CSV vazio ou sem dados válidos"
    case Xlsx => "Arquivo vazio ou sem dados válidos"
  }

  /** The file reader's error carries no message on the XLSX path. */
  function ReadError(format: Format, message: string): (r: string)
    ensures format == Csv ==> |message| < |r| && r[|r| - |message|..] == message
    ensures r != ""
  {
    match format
    case Csv => "Erro ao ler CSV: " + message
    case Xlsx => "Erro ao ler o arquivo"
  }

  function DecodeError(format: Format, message: string): (r: string)
    ensures |message| < |r| && r[|r| - |message|..] == message
  {
    match format
    case Csv => "Erro ao processar CSV: " + message
    case Xlsx => "Erro ao processar arquivo XLSX: " + message
  }

  function FieldNames(fs: seq<Field>): (names: seq<string>)
    ensures |names| == |fs|
    ensures forall i :: 0 <= i < |fs| ==> names[i] == FieldName(fs[i])
  {
    seq(|fs|, i requires 0 <= i < |fs| => FieldName(fs[i]))
  }

  const MissingColumnsPrefix: string := "Colunas obrigatórias não encontradas: "

  function MissingColumnsError(missing: seq<Field>): (r: string)
    ensures forall i :: 0 <= i < |missing| ==> Contains(r, FieldName(missing[i]))
  {
    var names := FieldNames(missing);
    JoinContainsParts(names, ", ");
    assert forall i :: 0 <= i < |missing| ==>
        Contains(MissingColumnsPrefix + Join(names, ", "), FieldName(missing[i])) by {
      forall i | 0 <= i < |missing|
        ensures Contains(MissingColumnsPrefix + Join(names, ", "), FieldName(missing[i]))
      {
        ContainsAppend(MissingColumnsPrefix, Join(names, ", "), names[i]);
      }
    }
    MissingColumnsPrefix + Join(names, ", ")
  }

  const UnsupportedFormatError: string := "Formato de arquivo não suportado. Use .xlsx ou .csv"

  /**
    The decision chain after decoding: no rows, then missing required columns, then
    success. Every failure is a single message with no records, and a success has
    records and no message.
   */
  function Ingest(format: Format, decoded: Decoded): (r: Ingestion)
    ensures r.errors != [] ==> r.data == []
    ensures r.errors == [] <==> r.data != []
    ensures |r.errors| <= 1
  {
    match decoded
    case ReadFailed(message) => Ingestion([], [ReadError(format, message)])
    case DecodeFailed(message) => Ingestion([], [DecodeError(format, message)])
    case Rows(rows) =>
      if |rows| == 0 then Ingestion([], [EmptyFileError(format)])
      else
        var mapping := HeaderMapping(Headers(rows[0]));
        var missing := MissingAmong(mapping, RequiredFields);
        if |missing| > 0 then Ingestion([], [MissingColumnsError(missing)])
        else Ingestion(ProcessData(rows, mapping), [])
  }

  /**
    The body of the decoder's completion callback: maps the headers of the first
    row, checks the required columns, and coerces the rows.
   */
  method CompleteIngestion(format: Format, decoded: Decoded) returns (r: Ingestion)
    ensures r == Ingest(format, decoded)
  {
    match decoded {
      case ReadFailed(message) =>
        return Ingestion([], [ReadError(format, message)]);
      case DecodeFailed(message) =>
        return Ingestion([], [DecodeError(format, message)]);
      case Rows(rows) =>
        if |rows| == 0 {
          return Ingestion([], [EmptyFileError(format)]);
        }
        var headerMapping := MapHeaders(Headers(rows[0]));
        var missingColumns := ValidateRequiredColumns(headerMapping);
        if |missingColumns| > 0 {
          return Ingestion([], [MissingColumnsError(missingColumns)]);
        }
        return Ingestion(ProcessData(rows, headerMapping), []);
    }
  }

  /**
    A table whose first row has a header for each required column, under any
    accepted spelling, yields one record per row, in row order, each with its
    status derived from its own status cell; a table lacking some required column
    yields no record and one message naming exactly the lacking columns, in the
    order `Nome`, `CodigoEstrutura`, `Situacao`.
   */
  lemma IngestRows(format: Format, rows: seq<Row>)
    requires |rows| > 0
    ensures var hs, r := Headers(rows[0]), Ingest(format, Rows(rows));
      var lacking := MissingAmong(HeaderMapping(hs), RequiredFields);
      && (forall f :: f in lacking <==> f in RequiredFields && !Resolves(hs, f))
      && IsSubsequence(lacking, RequiredFields)
      && (r.errors == [] <==> Resolves(hs, Nome) && Resolves(hs, CodigoEstrutura) && Resolves(hs, Situacao))
      && (r.errors != [] ==> r.data == [] && r.errors == [MissingColumnsError(lacking)])
      && (r.errors == [] ==>
            |r.data| == |rows|
            && forall i :: 0 <= i < |rows| ==>
                 r.data[i] == Coerce(rows[i], HeaderMapping(hs))
                 && r.data[i].isActive == IsActiveStatus(CellFor(rows[i], HeaderMapping(hs), Situacao)))
  {
    IngestMissingColumns(format, rows);
    IngestRecords(format, rows);
  }

  /** The error side of `IngestRows`: which columns are reported, and when. */
  lemma IngestMissingColumns(format: Format, rows: seq<Row>)
    requires |rows| > 0
    ensures var hs, r := Headers(rows[0]), Ingest(format, Rows(rows));
      var lacking := MissingAmong(HeaderMapping(hs), RequiredFields);
      && (forall f :: f in lacking <==> f in RequiredFields && !Resolves(hs, f))
      && IsSubsequence(lacking, RequiredFields)
      && (r.errors == [] <==> Resolves(hs, Nome) && Resolves(hs, CodigoEstrutura) && Resolves(hs, Situacao))
      && (r.errors != [] ==> r.data == [] && r.errors == [MissingColumnsError(lacking)])
  {
    var hs := Headers(rows[0]);
    var m := HeaderMapping(hs);
    HeaderMappingMeaning(hs);
    MissingColumnsMeaning(m);
    assert forall f :: Unmapped(m, f) <==> !Resolves(hs, f);
  }

  /** The success side of `IngestRows`: one record per row, in order. */
  lemma IngestRecords(format: Format, rows: seq<Row>)
    requires |rows| > 0
    ensures var hs, r := Headers(rows[0]), Ingest(format, Rows(rows));
      r.errors == [] ==>
        |r.data| == |rows|
        && forall i :: 0 <= i < |rows| ==>
             r.data[i] == Coerce(rows[i], HeaderMapping(hs))
             && r.data[i].isActive == IsActiveStatus(CellFor(rows[i], HeaderMapping(hs), Situacao))
  {
  }

  /** A table with no rows yields no record and the single "empty file" message. */
  lemma IngestEmptyTable(format: Format)
    ensures Ingest(format, Rows([])) == Ingestion([], [EmptyFileError(format)])
  {
  }

  // ---------------------------------------------------------------------------
  // parseFile: dispatch on the extension
  // ---------------------------------------------------------------------------

  /** `name.split('.').pop()`: the text after the last dot, or the whole name if it has none. */
  function LastSegment(name: string): (ext: string)
    ensures '.' !in ext
    ensures |ext| <= |name| && ext == name[|name| - |ext|..]
    ensures |ext| < |name| ==> name[|name| - |ext| - 1] == '.'
  {
    if name == [] then []
    else if name[|name| - 1] == '.' then []
    else LastSegment(name[..|name| - 1]) + [name[|name| - 1]]
  }

  /** The lower-cased extension the file is dispatched on. */
  function Extension(name: string): (ext: string)
    ensures '.' !in ext && NoUpper(ext) && |ext| <= |name|
  {
    Lower(LastSegment(name))
  }

  /** A name without a dot is its own extension. */
  lemma LastSegmentWithoutDot(name: string)
    requires '.' !in name
    ensures LastSegment(name) == name
  {
  }

  /**
    `parseFile`: `csv` goes to the CSV decoder, `xlsx` and `xls` to the spreadsheet
    decoder, anything else fails at once with the unsupported-format message. The
    decoders are the parameter `decode`.
   */
  function ParseFile(name: string, decode: Format -> Decoded): (r: Ingestion)
    ensures r.errors != [] ==> r.data == []
    ensures r.errors == [] <==> r.data != []
    ensures |r.errors| <= 1
    ensures Extension(name) !in ["csv", "xlsx", "xls"] ==> r == Ingestion([], [UnsupportedFormatError])
  {
    var extension := Extension(name);
    if extension == "csv" then Ingest(Csv, decode(Csv))
    else if extension == "xlsx" || extension == "xls" then Ingest(Xlsx, decode(Xlsx))
    else Ingestion([], [UnsupportedFormatError])
  }

  /** How `ParseFile` dispatches on the extension, once the extension is known. */
  lemma ParseFileDispatch(name: string, decode: Format -> Decoded)
    ensures Extension(name) == "csv" ==> ParseFile(name, decode) == Ingest(Csv, decode(Csv))
    ensures Extension(name) == "xlsx" || Extension(name) == "xls" ==> ParseFile(name, decode) == Ingest(Xlsx, decode(Xlsx))
  {
  }

  /** A name without a dot or capitals is its own extension. */
  lemma ExtensionOfBareName(name: string)
    requires '.' !in name && NoUpper(name)
    ensures Extension(name) == name
  {
    LastSegmentWithoutDot(name);
    LowerOfNoUpper(name);
  }

  /** The extension is matched case-insensitively ... */
  lemma ParseFileUpperCaseExtension(decode: Format -> Decoded)
    ensures ParseFile("revendas.CSV", decode) == Ingest(Csv, decode(Csv))
  {
    assert LastSegment("revendas.CSV") == "CSV";
    assert Lower("CSV") == "csv";
  }

  /** ... after the last dot only ... */
  lemma ParseFileLastDot(decode: Format -> Decoded)
    ensures ParseFile("revendas.csv.txt", decode) == Ingestion([], [UnsupportedFormatError])
  {
    assert LastSegment("revendas.csv.txt") == "txt";
    LowerOfNoUpper("txt");
  }

  /** ... and a name without a dot is taken whole. */
  lemma ParseFileNoDot(decode: Format -> Decoded)
    ensures ParseFile("xls", decode) == Ingest(Xlsx, decode(Xlsx))
  {
    ExtensionOfBareName("xls");
    ParseFileDispatch("xls", decode);
  }
}
