/** The reference lookup tables built at start-up (backend/model.py:18-44) and
    the metadata join `get_disease_info` (backend/model.py:130-133). */
module Tables {
  import opened Optional
  import opened Text

  /** A row of the symptom-severity table: the `Symptom` cell and the raw
      `weight` cell. */
  datatype SeverityRow = SeverityRow(symptom: string, weight: string)

  /** A row of the description table. */
  datatype DescriptionRow = DescriptionRow(disease: string, description: string)

  /** A row of the precaution table: the `Disease` cell and the cells of the
      other columns, in column order, an empty cell being `None`. */
  datatype PrecautionRow = PrecautionRow(disease: string, cells: seq<Option<string>>)

  /** `m` is what a loop doing `m[keys[i]] = vals[i]` for every `i` in turn
      leaves behind: exactly the keys written, each holding the value of
      its last write. */
  ghost predicate LastWriteWins<K(!new), V>(m: map<K, V>, keys: seq<K>, vals: seq<V>)
  {
    && |keys| == |vals|
    && (forall k :: k in m <==> k in keys)
    && (forall i :: 0 <= i < |keys| && keys[i] !in keys[i + 1..] ==> keys[i] in m && m[keys[i]] == vals[i])
  }

  lemma LastWriteWinsStep<K(!new), V>(m: map<K, V>, keys: seq<K>, vals: seq<V>, k: K, v: V)
    requires LastWriteWins(m, keys, vals)
    ensures LastWriteWins(m[k := v], keys + [k], vals + [v])
  {
    var keys', vals' := keys + [k], vals + [v];
    forall i | 0 <= i < |keys'| && keys'[i] !in keys'[i + 1..]
      ensures keys'[i] in m[k := v] && m[k := v][keys'[i]] == vals'[i]
    {
      if i < |keys| {
        assert keys'[i + 1..] == keys[i + 1..] + [k];
        assert keys'[i] != k;
      }
    }
  }

  /** The same step, stated on prefixes of the sequences being written. */
  lemma LastWriteWinsNext<K(!new), V>(m: map<K, V>, keys: seq<K>, vals: seq<V>, i: nat)
    requires i < |keys| == |vals|
    requires LastWriteWins(m, keys[..i], vals[..i])
    ensures LastWriteWins(m[keys[i] := vals[i]], keys[..i + 1], vals[..i + 1])
  {
    LastWriteWinsStep(m, keys[..i], vals[..i], keys[i], vals[i]);
    assert keys[..i + 1] == keys[..i] + [keys[i]];
    assert vals[..i + 1] == vals[..i] + [vals[i]];
  }

  // ---------------------------------------------------------------
  // severity_mapping
  // ---------------------------------------------------------------

  /** The key a severity row is stored under: `row["Symptom"].lower().strip()`. */
  function SeverityKey(row: SeverityRow): string
  {
    Strip(Lower(row.symptom))
  }

  /** `float(row["weight"])`, or 1.0 when the conversion fails; `parse`
      stands for Python's `float`. */
  function ParsedWeight(parse: string -> Option<real>, cell: string): real
  {
    parse(cell).GetOr(1.0)
  }

  function SeverityKeys(rows: seq<SeverityRow>): (keys: seq<string>)
    ensures |keys| == |rows|
  {
    seq(|rows|, i requires 0 <= i < |rows| => SeverityKey(rows[i]))
  }

  function SeverityWeights(rows: seq<SeverityRow>, parse: string -> Option<real>): (ws: seq<real>)
    ensures |ws| == |rows|
  {
    seq(|rows|, i requires 0 <= i < |rows| => ParsedWeight(parse, rows[i].weight))
  }

  /** Already stripped and lower-cased. */
  predicate Normal(k: string)
  {
    Strip(k) == k && Lower(k) == k
  }

  /** A severity key is already stripped and lower-cased. */
  lemma SeverityKeyNormal(row: SeverityRow)
    ensures Normal(SeverityKey(row))
  {
    var s := row.symptom;
    StripIdempotent(Lower(s));
    LowerStripCommute(Lower(s));
    LowerIdempotent(s);
  }

  /** The loop that fills `severity_mapping`: every row in turn, a later row
      overwriting an earlier one with the same key. */
  method BuildSeverityMapping(rows: seq<SeverityRow>, parse: string -> Option<real>)
    returns (severity: map<string, real>)
    ensures LastWriteWins(severity, SeverityKeys(rows), SeverityWeights(rows, parse))
    ensures forall k :: k in severity ==> Normal(k)
  {
    severity := map[];
    var i := 0;
    while i < |rows|
      invariant 0 <= i <= |rows|
      invariant LastWriteWins(severity, SeverityKeys(rows)[..i], SeverityWeights(rows, parse)[..i])
      invariant forall k :: k in severity ==> Normal(k)
    {
      var symptom := Strip(Lower(rows[i].symptom));
      var weight := ParsedWeight(parse, rows[i].weight);
      LastWriteWinsNext(severity, SeverityKeys(rows), SeverityWeights(rows, parse), i);
      SeverityKeyNormal(rows[i]);
      severity := severity[symptom := weight];
      i := i + 1;
    }
    assert SeverityKeys(rows)[..i] == SeverityKeys(rows);
    assert SeverityWeights(rows, parse)[..i] == SeverityWeights(rows, parse);
  }

  /** `severity_mapping.get(symptom, 1)`. */
  function BaseWeight(severity: map<string, real>, symptom: string): real
  {
    if symptom in severity then severity[symptom] else 1.0
  }

  /** The base weight of a symptom is the parsed weight of the last row that
      normalises to it, 1.0 when that weight does not parse, and 1.0 when
      no row does. */
  lemma BaseWeightFromRows(rows: seq<SeverityRow>, parse: string -> Option<real>,
                           severity: map<string, real>, symptom: string)
    requires LastWriteWins(severity, SeverityKeys(rows), SeverityWeights(rows, parse))
    ensures (forall i :: 0 <= i < |rows| ==> SeverityKey(rows[i]) != symptom) ==> BaseWeight(severity, symptom) == 1.0
    ensures forall i :: 0 <= i < |rows| && SeverityKey(rows[i]) == symptom
                        && (forall j :: i < j < |rows| ==> SeverityKey(rows[j]) != symptom)
                        ==> BaseWeight(severity, symptom) == parse(rows[i].weight).GetOr(1.0)
  {
    var keys := SeverityKeys(rows);
    if symptom in severity {
      assert symptom in keys;
    }
    forall i | 0 <= i < |rows| && SeverityKey(rows[i]) == symptom
               && (forall j :: i < j < |rows| ==> SeverityKey(rows[j]) != symptom)
      ensures BaseWeight(severity, symptom) == parse(rows[i].weight).GetOr(1.0)
    {
      assert keys[i] !in keys[i + 1..];
    }
  }

  // ---------------------------------------------------------------
  // description_dict
  // ---------------------------------------------------------------

  function DescriptionKeys(rows: seq<DescriptionRow>): (keys: seq<string>)
    ensures |keys| == |rows|
  {
    seq(|rows|, i requires 0 <= i < |rows| => rows[i].disease)
  }

  function DescriptionTexts(rows: seq<DescriptionRow>): (texts: seq<string>)
    ensures |texts| == |rows|
  {
    seq(|rows|, i requires 0 <= i < |rows| => rows[i].description)
  }

  /** The loop that fills `description_dict`. */
  method BuildDescriptions(rows: seq<DescriptionRow>) returns (descriptions: map<string, string>)
    ensures LastWriteWins(descriptions, DescriptionKeys(rows), DescriptionTexts(rows))
  {
    descriptions := map[];
    var i := 0;
    while i < |rows|
      invariant 0 <= i <= |rows|
      invariant LastWriteWins(descriptions, DescriptionKeys(rows)[..i], DescriptionTexts(rows)[..i])
    {
      var disease := rows[i].disease;
      var description := rows[i].description;
      LastWriteWinsNext(descriptions, DescriptionKeys(rows), DescriptionTexts(rows), i);
      descriptions := descriptions[disease := description];
      i := i + 1;
    }
    assert DescriptionKeys(rows)[..i] == DescriptionKeys(rows);
    assert DescriptionTexts(rows)[..i] == DescriptionTexts(rows);
  }

  // ---------------------------------------------------------------
  // precaution_dict
  // ---------------------------------------------------------------

  /** The comprehension over the non-`Disease` columns: the non-empty cells,
      in column order. */
  function Present(cells: seq<Option<string>>): (r: seq<string>)
    ensures |r| <= |cells|
    decreases |cells|
  {
    if cells == [] then []
    else
      match cells[0]
      case Some(x) => [x] + Present(cells[1..])
      case None => Present(cells[1..])
  }

  /** The list holds exactly the values of the non-empty cells. */
  lemma {:induction false} PresentMembers(cells: seq<Option<string>>)
    ensures forall x :: x in Present(cells) <==> Some(x) in cells
    decreases |cells|
  {
    if cells != [] {
      PresentMembers(cells[1..]);
      assert forall c :: c in cells <==> c == cells[0] || c in cells[1..];
    }
  }

  /** Filtering keeps column order: it distributes over concatenation. */
  lemma {:induction false} PresentConcat(a: seq<Option<string>>, b: seq<Option<string>>)
    ensures Present(a + b) == Present(a) + Present(b)
    decreases |a|
  {
    if a == [] {
      assert a + b == b;
    } else {
      assert (a + b)[0] == a[0];
      assert (a + b)[1..] == a[1..] + b;
      PresentConcat(a[1..], b);
    }
  }

  /** The `Disease` cells of the precaution rows. It has the shape of
      `DescriptionKeys` but reads the other table's row type. */
  function PrecautionKeys(rows: seq<PrecautionRow>): (keys: seq<string>)
    ensures |keys| == |rows|
  {
    seq(|rows|, i requires 0 <= i < |rows| => rows[i].disease)
  }

  function PrecautionLists(rows: seq<PrecautionRow>): (lists: seq<seq<string>>)
    ensures |lists| == |rows|
  {
    seq(|rows|, i requires 0 <= i < |rows| => Present(rows[i].cells))
  }

  /** The loop that fills `precaution_dict`. */
  method BuildPrecautions(rows: seq<PrecautionRow>) returns (precautions: map<string, seq<string>>)
    ensures LastWriteWins(precautions, PrecautionKeys(rows), PrecautionLists(rows))
  {
    precautions := map[];
    var i := 0;
    while i < |rows|
      invariant 0 <= i <= |rows|
      invariant LastWriteWins(precautions, PrecautionKeys(rows)[..i], PrecautionLists(rows)[..i])
    {
      var disease := rows[i].disease;
      var list := Present(rows[i].cells);
      LastWriteWinsNext(precautions, PrecautionKeys(rows), PrecautionLists(rows), i);
      precautions := precautions[disease := list];
      i := i + 1;
    }
    assert PrecautionKeys(rows)[..i] == PrecautionKeys(rows);
    assert PrecautionLists(rows)[..i] == PrecautionLists(rows);
  }

  // ---------------------------------------------------------------
  // get_disease_info
  // ---------------------------------------------------------------

  const NoDescription := "No description available."
  const NoPrecautions := ["No precautions available."]

  datatype DiseaseInfo = DiseaseInfo(description: string, precautions: seq<string>)

  /** `get_disease_info`: two dictionary lookups with literal defaults. */
  function GetDiseaseInfo(descriptions: map<string, string>, precautions: map<string, seq<string>>,
                          disease: string): DiseaseInfo
  {
    DiseaseInfo(if disease in descriptions then descriptions[disease] else NoDescription,
                if disease in precautions then precautions[disease] else NoPrecautions)
  }

  /** Each lookup falls back to its own default: a disease with no
      description row gets "No description available.", and one with no
      precaution row gets ["No precautions available."], whatever the other
      table holds. */
  lemma UnknownDiseaseDefaults(descRows: seq<DescriptionRow>, precRows: seq<PrecautionRow>,
                               descriptions: map<string, string>, precautions: map<string, seq<string>>,
                               disease: string)
    requires LastWriteWins(descriptions, DescriptionKeys(descRows), DescriptionTexts(descRows))
    requires LastWriteWins(precautions, PrecautionKeys(precRows), PrecautionLists(precRows))
    ensures (forall i :: 0 <= i < |descRows| ==> descRows[i].disease != disease)
            ==> GetDiseaseInfo(descriptions, precautions, disease).description == "No description available."
    ensures (forall i :: 0 <= i < |precRows| ==> precRows[i].disease != disease)
            ==> GetDiseaseInfo(descriptions, precautions, disease).precautions == ["No precautions available."]
  {
    if forall i :: 0 <= i < |descRows| ==> descRows[i].disease != disease {
      assert disease !in DescriptionKeys(descRows);
    }
    if forall i :: 0 <= i < |precRows| ==> precRows[i].disease != disease {
      assert disease !in PrecautionKeys(precRows);
    }
  }

  /** A disease described by some row gets the description of the last such
      row; one with precaution rows gets the non-empty cells of the last
      such row, in column order. */
  lemma KnownDiseaseInfo(descRows: seq<DescriptionRow>, precRows: seq<PrecautionRow>,
                         descriptions: map<string, string>, precautions: map<string, seq<string>>,
                         disease: string)
    requires LastWriteWins(descriptions, DescriptionKeys(descRows), DescriptionTexts(descRows))
    requires LastWriteWins(precautions, PrecautionKeys(precRows), PrecautionLists(precRows))
    ensures forall i :: 0 <= i < |descRows| && descRows[i].disease == disease
                        && (forall j :: i < j < |descRows| ==> descRows[j].disease != disease)
                        ==> GetDiseaseInfo(descriptions, precautions, disease).description == descRows[i].description
    ensures forall i :: 0 <= i < |precRows| && precRows[i].disease == disease
                        && (forall j :: i < j < |precRows| ==> precRows[j].disease != disease)
                        ==> GetDiseaseInfo(descriptions, precautions, disease).precautions == Present(precRows[i].cells)
  {
    forall i | 0 <= i < |descRows| && descRows[i].disease == disease
               && (forall j :: i < j < |descRows| ==> descRows[j].disease != disease)
      ensures GetDiseaseInfo(descriptions, precautions, disease).description == descRows[i].description
    {
      assert DescriptionKeys(descRows)[i] !in DescriptionKeys(descRows)[i + 1..];
    }
    forall i | 0 <= i < |precRows| && precRows[i].disease == disease
               && (forall j :: i < j < |precRows| ==> precRows[j].disease != disease)
      ensures GetDiseaseInfo(descriptions, precautions, disease).precautions == Present(precRows[i].cells)
    {
      assert PrecautionKeys(precRows)[i] !in PrecautionKeys(precRows)[i + 1..];
    }
  }
}
