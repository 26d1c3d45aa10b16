/** The two feature encoders: `create_feature_vector` for a training row
    (backend/model.py:66-79) and the encoding loop of `predict_disease` for
    the user's symptoms (backend/model.py:99-111). */
module Encoding {
  import opened Optional
  import opened Text
  import opened Tables
  import opened Vocabulary

  /** `[0] * n`. */
  function Zeros(n: nat): (v: seq<real>)
    ensures |v| == n && forall k :: 0 <= k < n ==> v[k] == 0.0
  {
    seq(n, k => 0.0)
  }

  // ---------------------------------------------------------------
  // Training rows
  // ---------------------------------------------------------------

  /** `vocab.index(x)`: the first position holding exactly `x`; `None` where
      Python raises `ValueError`. */
  function IndexOf(vocab: seq<string>, x: string): (r: Option<nat>)
    ensures r.Some? ==> r.value < |vocab| && vocab[r.value] == x && x !in vocab[..r.value]
    ensures r.None? <==> x !in vocab
    decreases |vocab|
  {
    if vocab == [] then None
    else if vocab[0] == x then Some(0)
    else
      match IndexOf(vocab[1..], x)
      case None => None
      case Some(k) =>
        assert vocab[..k + 1] == [vocab[0]] + vocab[1..][..k];
        Some(k + 1)
  }

  /** In a vocabulary without repeats the exact lookup finds slot `k` iff
      slot `k` holds `x`. */
  lemma IndexOfAscending(vocab: seq<string>, x: string, k: nat)
    requires Ascending(vocab) && k < |vocab|
    ensures IndexOf(vocab, x) == Some(k) <==> vocab[k] == x
  {
    if vocab[k] == x {
      var r := IndexOf(vocab, x);
      assert x in vocab;
      if r.value < k {
        AscendingDistinct(vocab, r.value, k);
      }
    }
  }

  /** The `j`-th symptom column of `row` holds a value that, stripped, is
      found at slot `k` by `vocab.index`. */
  predicate Names(row: seq<Option<string>>, cols: seq<nat>, vocab: seq<string>, j: int, k: int)
  {
    && 0 <= j < |cols| && cols[j] < |row| && row[cols[j]].Some?
    && IndexOf(vocab, Strip(row[cols[j]].value)) == Some(k)
  }

  /** `features` is the training vector of `row`: one slot per vocabulary
      entry, holding the base weight of that entry's lower-cased form where
      some symptom column names it and 0 elsewhere. */
  ghost predicate TrainingVector(features: seq<real>, row: seq<Option<string>>, cols: seq<nat>,
                                 vocab: seq<string>, severity: map<string, real>)
  {
    && |features| == |vocab|
    && (forall k, j :: Names(row, cols, vocab, j, k) ==> features[k] == BaseWeight(severity, Lower(vocab[k])))
    && (forall k :: 0 <= k < |vocab| && (forall j :: !Names(row, cols, vocab, j, k)) ==> features[k] == 0.0)
  }

  /** The training vector after the first `j` symptom columns. */
  ghost predicate TrainingPrefix(features: seq<real>, row: seq<Option<string>>, cols: seq<nat>,
                                 vocab: seq<string>, severity: map<string, real>, j: int)
  {
    && |features| == |vocab|
    && (forall k, jj :: jj < j && Names(row, cols, vocab, jj, k) ==> features[k] == BaseWeight(severity, Lower(vocab[k])))
    && (forall k :: 0 <= k < |vocab| && (forall jj :: jj < j ==> !Names(row, cols, vocab, jj, k)) ==> features[k] == 0.0)
  }

  /** One turn of the loop over the symptom columns. */
  function TrainingStep(features: seq<real>, row: seq<Option<string>>, cols: seq<nat>,
                        vocab: seq<string>, severity: map<string, real>, j: nat): seq<real>
    requires j < |cols| && cols[j] < |row|
  {
    match row[cols[j]]
    case None => features
    case Some(v) =>
      match IndexOf(vocab, Strip(v))
      case None => features
      case Some(idx) => if idx < |features| then features[idx := BaseWeight(severity, Lower(Strip(v)))] else features
  }

  lemma TrainingPrefixNext(features: seq<real>, row: seq<Option<string>>, cols: seq<nat>,
                           vocab: seq<string>, severity: map<string, real>, j: nat)
    requires j < |cols| && cols[j] < |row|
    requires TrainingPrefix(features, row, cols, vocab, severity, j)
    ensures TrainingPrefix(TrainingStep(features, row, cols, vocab, severity, j), row, cols, vocab, severity, j + 1)
  {
    var cell := row[cols[j]];
    if cell.Some? && IndexOf(vocab, Strip(cell.value)).Some? {
      TrainingPrefixWrite(features, row, cols, vocab, severity, j, IndexOf(vocab, Strip(cell.value)).value);
    } else {
      forall k | 0 <= k < |vocab| ensures !Names(row, cols, vocab, j, k) {
      }
    }
  }

  lemma TrainingPrefixWrite(features: seq<real>, row: seq<Option<string>>, cols: seq<nat>,
                            vocab: seq<string>, severity: map<string, real>, j: nat, idx: nat)
    requires j < |cols| && cols[j] < |row| && Names(row, cols, vocab, j, idx)
    requires TrainingPrefix(features, row, cols, vocab, severity, j)
    ensures TrainingPrefix(features[idx := BaseWeight(severity, Lower(vocab[idx]))], row, cols, vocab, severity, j + 1)
    ensures TrainingStep(features, row, cols, vocab, severity, j) == features[idx := BaseWeight(severity, Lower(vocab[idx]))]
  {
    var next := features[idx := BaseWeight(severity, Lower(vocab[idx]))];
    forall k, jj | jj < j + 1 && Names(row, cols, vocab, jj, k)
      ensures next[k] == BaseWeight(severity, Lower(vocab[k]))
    {
      if jj == j {
        assert k == idx;
      }
    }
  }

  /** `create_feature_vector(row)`. */
  method EncodeTrainingRow(row: seq<Option<string>>, cols: seq<nat>, vocab: seq<string>,
                           severity: map<string, real>) returns (features: seq<real>)
    requires forall j :: 0 <= j < |cols| ==> cols[j] < |row|
    ensures TrainingVector(features, row, cols, vocab, severity)
  {
    features := Zeros(|vocab|);
    var j := 0;
    while j < |cols|
      invariant 0 <= j <= |cols|
      invariant TrainingPrefix(features, row, cols, vocab, severity, j)
    {
      TrainingPrefixNext(features, row, cols, vocab, severity, j);
      ghost var next := TrainingStep(features, row, cols, vocab, severity, j);
      var cell := row[cols[j]];
      if cell.Some? {
        var symptom := Strip(cell.value);
        var weight := BaseWeight(severity, Lower(symptom));
        match IndexOf(vocab, symptom)
        case Some(idx) =>
          features := features[idx := weight];
        case None =>
      }
      assert features == next;
      j := j + 1;
    }
  }

  /** With the sorted vocabulary the training lookup is exact and
      case-sensitive: slot `k` is written iff some symptom column holds a
      value whose strip is `vocab[k]`. */
  lemma TrainingSlotExact(features: seq<real>, row: seq<Option<string>>, cols: seq<nat>,
                          vocab: seq<string>, severity: map<string, real>, k: nat)
    requires TrainingVector(features, row, cols, vocab, severity)
    requires Ascending(vocab) && k < |vocab|
    ensures (forall j :: 0 <= j < |cols| && cols[j] < |row| && row[cols[j]].Some?
                         ==> Strip(row[cols[j]].value) != vocab[k])
            ==> features[k] == 0.0
    ensures forall j :: 0 <= j < |cols| && cols[j] < |row| && row[cols[j]].Some?
                        && Strip(row[cols[j]].value) == vocab[k]
                        ==> features[k] == BaseWeight(severity, Lower(vocab[k]))
  {
    forall j | 0 <= j < |cols| && cols[j] < |row| && row[cols[j]].Some?
      ensures Names(row, cols, vocab, j, k) <==> Strip(row[cols[j]].value) == vocab[k]
    {
      IndexOfAscending(vocab, Strip(row[cols[j]].value), k);
    }
  }

  // ---------------------------------------------------------------
  // User symptoms
  // ---------------------------------------------------------------

  /** One `(symptom, severity)` pair reported by the user. */
  datatype Observation = Observation(symptom: string, severity: real)

  /** The slot the scan of `predict_disease` stops at: the first vocabulary
      entry whose lower-cased form is `clean`. */
  function FirstMatch(vocab: seq<string>, clean: string): (r: Option<nat>)
    ensures r.Some? ==> r.value < |vocab| && Lower(vocab[r.value]) == clean
    ensures r.Some? ==> forall k :: 0 <= k < r.value ==> Lower(vocab[k]) != clean
    ensures r.None? ==> forall k :: 0 <= k < |vocab| ==> Lower(vocab[k]) != clean
    decreases |vocab|
  {
    if vocab == [] then None
    else if Lower(vocab[0]) == clean then Some(0)
    else
      match FirstMatch(vocab[1..], clean)
      case None => None
      case Some(k) => Some(k + 1)
  }

  /** The slot an observation writes, if it is recognised. */
  function SlotOf(vocab: seq<string>, o: Observation): Option<nat>
  {
    FirstMatch(vocab, Normalize(o.symptom))
  }

  /** What a recognised observation writes: its severity times the base
      weight of its normalised symptom. */
  function Contribution(severity: map<string, real>, o: Observation): real
  {
    o.severity * BaseWeight(severity, Normalize(o.symptom))
  }

  /** The product the loop computes is the observation's contribution. */
  lemma ContributionOf(severity: map<string, real>, o: Observation, userSeverity: real, baseWeight: real)
    requires userSeverity == o.severity && baseWeight == BaseWeight(severity, Normalize(o.symptom))
    ensures userSeverity * baseWeight == Contribution(severity, o)
  {
  }

  /** One assignment `features[slot] = value`, or nothing when `slot` is
      `None`. */
  datatype Write = Write(slot: Option<nat>, value: real)

  /** Performs one write; a slot outside the vector is never produced by
      `SlotOf` and is ignored. */
  function Put(v: seq<real>, w: Write): (r: seq<real>)
    ensures |r| == |v|
  {
    match w.slot
    case None => v
    case Some(k) => if k < |v| then v[k := w.value] else v
  }

  /** A zero vector of length `n` after the writes `ws`, in order. */
  function Fill(n: nat, ws: seq<Write>): (v: seq<real>)
    ensures |v| == n
    decreases |ws|
  {
    if ws == [] then Zeros(n) else Put(Fill(n, ws[..|ws| - 1]), ws[|ws| - 1])
  }

  /** The write one observation performs. */
  function WriteOf(vocab: seq<string>, severity: map<string, real>, o: Observation): Write
  {
    Write(SlotOf(vocab, o), Contribution(severity, o))
  }

  /** The writes of a list of observations, in order. */
  function WritesOf(vocab: seq<string>, severity: map<string, real>, obs: seq<Observation>): (ws: seq<Write>)
    ensures |ws| == |obs|
  {
    seq(|obs|, n requires 0 <= n < |obs| => WriteOf(vocab, severity, obs[n]))
  }

  /** The feature vector `predict_disease` builds from `obs`. */
  function Encode(vocab: seq<string>, severity: map<string, real>, obs: seq<Observation>): (v: seq<real>)
    ensures |v| == |vocab|
  {
    Fill(|vocab|, WritesOf(vocab, severity, obs))
  }

  lemma WritesOfConcat(vocab: seq<string>, severity: map<string, real>, a: seq<Observation>, b: seq<Observation>)
    ensures WritesOf(vocab, severity, a + b) == WritesOf(vocab, severity, a) + WritesOf(vocab, severity, b)
  {
  }

  /** Encoding one more observation is one more turn of the loop. */
  lemma EncodeSnoc(vocab: seq<string>, severity: map<string, real>, init: seq<Observation>, o: Observation)
    ensures Encode(vocab, severity, init + [o]) == Put(Encode(vocab, severity, init), WriteOf(vocab, severity, o))
  {
    var ws := WritesOf(vocab, severity, init + [o]);
    WritesOfConcat(vocab, severity, init, [o]);
    assert ws[..|ws| - 1] == WritesOf(vocab, severity, init);
  }

  /** The encoding loop of `predict_disease`, with its inner scan, its
      `matched` flag and its `break`. */
  method EncodeSymptoms(vocab: seq<string>, severity: map<string, real>, obs: seq<Observation>)
    returns (features: seq<real>)
    ensures features == Encode(vocab, severity, obs)
  {
    features := Zeros(|vocab|);
    var n := 0;
    while n < |obs|
      invariant 0 <= n <= |obs|
      invariant features == Encode(vocab, severity, obs[..n])
    {
      var symptom, userSeverity := obs[n].symptom, obs[n].severity;
      var clean := Normalize(symptom);
      var matched := false;
      var i := 0;
      ghost var before := features;
      assert obs[..n + 1] == obs[..n] + [obs[n]];
      while i < |vocab|
        invariant 0 <= i <= |vocab| && !matched && features == before
        invariant forall k :: 0 <= k < i ==> Lower(vocab[k]) != clean
      {
        if Lower(vocab[i]) == clean {
          var baseWeight := BaseWeight(severity, clean);
          features := features[i := userSeverity * baseWeight];
          matched := true;
          ContributionOf(severity, obs[n], userSeverity, baseWeight);
          RecognisedWritesFirstMatch(vocab, severity, obs[..n], obs[n], i);
          break;
        }
        i := i + 1;
      }
      if !matched {
        UnrecognisedAppended(vocab, severity, obs[..n], obs[n]);
      }
      n := n + 1;
    }
    assert obs[..n] == obs;
  }

  // Facts about a zero vector after a list of writes.

  lemma FillSnoc(n: nat, ws: seq<Write>, w: Write)
    ensures Fill(n, ws + [w]) == Put(Fill(n, ws), w)
  {
    assert (ws + [w])[..|ws|] == ws;
  }

  lemma {:induction false} FillUntouched(n: nat, ws: seq<Write>, k: nat)
    requires k < n
    requires forall m :: 0 <= m < |ws| ==> ws[m].slot != Some(k)
    ensures Fill(n, ws)[k] == 0.0
    decreases |ws|
  {
    if ws != [] {
      var init := ws[..|ws| - 1];
      assert forall m :: 0 <= m < |init| ==> init[m] == ws[m];
      FillUntouched(n, init, k);
    }
  }

  lemma {:induction false} FillLastWrite(n: nat, ws: seq<Write>, k: nat, m: nat)
    requires k < n && m < |ws| && ws[m].slot == Some(k)
    requires forall j :: m < j < |ws| ==> ws[j].slot != Some(k)
    ensures Fill(n, ws)[k] == ws[m].value
    decreases |ws|
  {
    if m < |ws| - 1 {
      var init := ws[..|ws| - 1];
      assert forall j :: 0 <= j < |init| ==> init[j] == ws[j];
      FillLastWrite(n, init, k, m);
    }
  }

  lemma {:induction false} FillSkipsNone(n: nat, before: seq<Write>, w: Write, after: seq<Write>)
    requires w.slot == None
    ensures Fill(n, before + [w] + after) == Fill(n, before + after)
    decreases |after|
  {
    if after == [] {
      assert before + [w] + after == before + [w];
      assert before + after == before;
      FillSnoc(n, before, w);
    } else {
      var init, x := after[..|after| - 1], after[|after| - 1];
      FillSkipsNone(n, before, w, init);
      assert before + [w] + after == (before + [w] + init) + [x];
      assert before + after == (before + init) + [x];
      FillSnoc(n, before + [w] + init, x);
      FillSnoc(n, before + init, x);
    }
  }

  lemma PutCommute(v: seq<real>, a: Write, b: Write)
    requires a.slot.None? || a.slot != b.slot
    ensures Put(Put(v, a), b) == Put(Put(v, b), a)
  {
    if a.slot.Some? && b.slot.Some? && a.slot.value < |v| && b.slot.value < |v| {
      assert v[a.slot.value := a.value][b.slot.value := b.value]
          == v[b.slot.value := b.value][a.slot.value := a.value];
    }
  }

  lemma {:induction false} FillSwap(n: nat, before: seq<Write>, a: Write, b: Write, after: seq<Write>)
    requires a.slot.None? || a.slot != b.slot
    ensures Fill(n, before + [a, b] + after) == Fill(n, before + [b, a] + after)
    decreases |after|
  {
    if after == [] {
      assert before + [a, b] + after == (before + [a]) + [b];
      assert before + [b, a] + after == (before + [b]) + [a];
      FillSnoc(n, before + [a], b);
      FillSnoc(n, before + [b], a);
      FillSnoc(n, before, a);
      FillSnoc(n, before, b);
      PutCommute(Fill(n, before), a, b);
    } else {
      var init, x := after[..|after| - 1], after[|after| - 1];
      FillSwap(n, before, a, b, init);
      assert before + [a, b] + after == (before + [a, b] + init) + [x];
      assert before + [b, a] + after == (before + [b, a] + init) + [x];
      FillSnoc(n, before + [a, b] + init, x);
      FillSnoc(n, before + [b, a] + init, x);
    }
  }

  // Properties of the encoding.

  /** A slot that no observation is recognised into stays 0; in particular
      the empty list gives the zero vector. */
  lemma UntouchedSlotZero(vocab: seq<string>, severity: map<string, real>, obs: seq<Observation>, k: nat)
    requires k < |vocab|
    requires forall n :: 0 <= n < |obs| ==> SlotOf(vocab, obs[n]) != Some(k)
    ensures Encode(vocab, severity, obs)[k] == 0.0
  {
    FillUntouched(|vocab|, WritesOf(vocab, severity, obs), k);
  }

  /** Of two vocabulary entries that differ only in case, the scan always
      stops at the earlier one: the later slot is 0 in every vector built
      from user symptoms, although training rows do write it. */
  lemma ShadowedSlotStaysZero(vocab: seq<string>, severity: map<string, real>, obs: seq<Observation>,
                              j: nat, k: nat)
    requires j < k < |vocab| && Lower(vocab[j]) == Lower(vocab[k])
    ensures Encode(vocab, severity, obs)[k] == 0.0
  {
    UntouchedSlotZero(vocab, severity, obs, k);
  }

  /** A slot that some observation is recognised into holds the contribution
      of the LAST such observation: a later duplicate overwrites. */
  lemma SlotHoldsLastWrite(vocab: seq<string>, severity: map<string, real>, obs: seq<Observation>, k: nat, n: nat)
    requires k < |vocab| && n < |obs| && SlotOf(vocab, obs[n]) == Some(k)
    requires forall m :: n < m < |obs| ==> SlotOf(vocab, obs[m]) != Some(k)
    ensures Encode(vocab, severity, obs)[k] == Contribution(severity, obs[n])
  {
    FillLastWrite(|vocab|, WritesOf(vocab, severity, obs), k, n);
  }

  /** A recognised observation writes the first vocabulary slot whose
      lower-cased entry equals its normalised symptom, and changes no other
      slot. */
  lemma RecognisedWritesFirstMatch(vocab: seq<string>, severity: map<string, real>,
                                   before: seq<Observation>, o: Observation, k: nat)
    requires k < |vocab| && Lower(vocab[k]) == Normalize(o.symptom)
    requires forall j :: 0 <= j < k ==> Lower(vocab[j]) != Normalize(o.symptom)
    ensures Encode(vocab, severity, before + [o])
            == Encode(vocab, severity, before)[k := Contribution(severity, o)]
  {
    EncodeSnoc(vocab, severity, before, o);
    assert SlotOf(vocab, o) == Some(k);
  }

  /** An observation whose normalised symptom matches no lower-cased
      vocabulary entry leaves the vector as it was. */
  lemma UnrecognisedAppended(vocab: seq<string>, severity: map<string, real>,
                             before: seq<Observation>, o: Observation)
    requires forall k :: 0 <= k < |vocab| ==> Lower(vocab[k]) != Normalize(o.symptom)
    ensures Encode(vocab, severity, before + [o]) == Encode(vocab, severity, before)
  {
    EncodeSnoc(vocab, severity, before, o);
    assert SlotOf(vocab, o) == None;
  }

  /** An observation that is not recognised has no effect: the vector equals
      the one built with that observation left out. */
  lemma UnrecognisedIgnored(vocab: seq<string>, severity: map<string, real>,
                            before: seq<Observation>, o: Observation, after: seq<Observation>)
    requires SlotOf(vocab, o) == None
    ensures Encode(vocab, severity, before + [o] + after) == Encode(vocab, severity, before + after)
  {
    WritesOfConcat(vocab, severity, before + [o], after);
    WritesOfConcat(vocab, severity, before, [o]);
    WritesOfConcat(vocab, severity, before, after);
    assert WritesOf(vocab, severity, [o]) == [WriteOf(vocab, severity, o)];
    FillSkipsNone(|vocab|, WritesOf(vocab, severity, before), WriteOf(vocab, severity, o),
                  WritesOf(vocab, severity, after));
  }

  /** Observations that agree on the normalised symptom and the severity
      perform the same write. */
  lemma WriteOfNormalised(vocab: seq<string>, severity: map<string, real>, o1: Observation, o2: Observation)
    requires Normalize(o1.symptom) == Normalize(o2.symptom) && o1.severity == o2.severity
    ensures WriteOf(vocab, severity, o1) == WriteOf(vocab, severity, o2)
  {
  }

  lemma WritesOfPointwise(vocab: seq<string>, severity: map<string, real>,
                          obs1: seq<Observation>, obs2: seq<Observation>)
    requires |obs1| == |obs2|
    requires forall n :: 0 <= n < |obs1| ==> WriteOf(vocab, severity, obs1[n]) == WriteOf(vocab, severity, obs2[n])
    ensures WritesOf(vocab, severity, obs1) == WritesOf(vocab, severity, obs2)
  {
  }

  /** Encoding looks only at the stripped, lower-cased symptom: two lists
      that agree on it and on the severities encode identically. */
  lemma EncodeCaseInsensitive(vocab: seq<string>, severity: map<string, real>,
                              obs1: seq<Observation>, obs2: seq<Observation>)
    requires |obs1| == |obs2|
    requires forall n :: 0 <= n < |obs1| ==> Normalize(obs1[n].symptom) == Normalize(obs2[n].symptom)
                                             && obs1[n].severity == obs2[n].severity
    ensures Encode(vocab, severity, obs1) == Encode(vocab, severity, obs2)
  {
    forall n | 0 <= n < |obs1|
      ensures WriteOf(vocab, severity, obs1[n]) == WriteOf(vocab, severity, obs2[n])
    {
      WriteOfNormalised(vocab, severity, obs1[n], obs2[n]);
    }
    WritesOfPointwise(vocab, severity, obs1, obs2);
  }

  /** Two neighbouring observations recognised into different slots, or the
      first not at all, may be swapped. */
  lemma SwapDistinctSlots(vocab: seq<string>, severity: map<string, real>,
                          before: seq<Observation>, a: Observation, b: Observation, after: seq<Observation>)
    requires SlotOf(vocab, a).None? || SlotOf(vocab, a) != SlotOf(vocab, b)
    ensures Encode(vocab, severity, before + [a, b] + after) == Encode(vocab, severity, before + [b, a] + after)
  {
    var wa, wb := WriteOf(vocab, severity, a), WriteOf(vocab, severity, b);
    WritesOfConcat(vocab, severity, before + [a, b], after);
    WritesOfConcat(vocab, severity, before + [b, a], after);
    WritesOfConcat(vocab, severity, before, [a, b]);
    WritesOfConcat(vocab, severity, before, [b, a]);
    assert WritesOf(vocab, severity, [a, b]) == [wa, wb];
    assert WritesOf(vocab, severity, [b, a]) == [wb, wa];
    FillSwap(|vocab|, WritesOf(vocab, severity, before), wa, wb, WritesOf(vocab, severity, after));
  }

  lemma NormalizeFever()
    ensures Normalize("fever") == "fever" && Normalize("Fever") == "fever"
  {
    assert Strip("fever") == "fever" by { StripOfTrimmed("fever"); }
    assert Strip("Fever") == "Fever" by { StripOfTrimmed("Fever"); }
    assert Lower("Fever") == "fever";
  }

  /** The encoding is NOT order-independent in general: of two spellings of
      one symptom with different severities, the later one wins. */
  lemma LastWriteWinsOrderMatters()
    ensures Encode(["fever"], map[], [Observation("fever", 1.0), Observation("Fever", 2.0)]) == [2.0]
    ensures Encode(["fever"], map[], [Observation("Fever", 2.0), Observation("fever", 1.0)]) == [1.0]
  {
    NormalizeFever();
    var a, b := Observation("fever", 1.0), Observation("Fever", 2.0);
    assert FirstMatch(["fever"], "fever") == Some(0);
    assert WriteOf(["fever"], map[], a) == Write(Some(0), 1.0);
    assert WriteOf(["fever"], map[], b) == Write(Some(0), 2.0);
    assert WritesOf(["fever"], map[], [a, b]) == [Write(Some(0), 1.0), Write(Some(0), 2.0)];
    assert WritesOf(["fever"], map[], [b, a]) == [Write(Some(0), 2.0), Write(Some(0), 1.0)];
    FillSnoc(1, [Write(Some(0), 1.0)], Write(Some(0), 2.0));
    FillSnoc(1, [Write(Some(0), 2.0)], Write(Some(0), 1.0));
    FillSnoc(1, [], Write(Some(0), 1.0));
    FillSnoc(1, [], Write(Some(0), 2.0));
  }
}
