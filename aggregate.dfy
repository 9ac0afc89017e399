/** The text aggregation of `ocr_image` (app.py, lines 93-94):
    `" ".join([det[1] for det in result if len(det) > 1]).strip()`.
    A detection is the tuple the engine returns for one region, modelled as
    the sequence of its items; only the item at index 1 is ever read. */
module Aggregate {
  import opened Results
  import opened Strings

  /** One item of a detection: a Python `str`, or a value of another type
      (coordinates, a confidence score), known only by its type name. */
  datatype Value = Str(text: string) | Other(typeName: string)

  type Detection = seq<Value>

  /** The item a detection contributes: `[det[1]]` when `len(det) > 1`. */
  function KeptItem(det: Detection): seq<Value> {
    if |det| > 1 then [det[1]] else []
  }

  /** `[det[1] for det in result if len(det) > 1]`. */
  function Kept(dets: seq<Detection>): seq<Value> {
    if dets == [] then [] else KeptItem(dets[0]) + Kept(dets[1..])
  }

  /** Filtering commutes with concatenation: what is kept from two runs of
      detections is what is kept from each, in the same order. */
  lemma {:induction false} KeptAppend(a: seq<Detection>, b: seq<Detection>)
    ensures Kept(a + b) == Kept(a) + Kept(b)
    decreases |a|
  {
    if a == [] {
      assert a + b == b;
    } else {
      assert (a + b)[0] == a[0];
      assert (a + b)[1..] == a[1..] + b;
      KeptAppend(a[1..], b);
    }
  }

  /** Every detection with at most one item is dropped, and no other item
      than `det[1]` is ever taken. */
  lemma {:induction false} KeptShape(dets: seq<Detection>)
    ensures |Kept(dets)| <= |dets|
    ensures (forall i :: 0 <= i < |dets| ==> |dets[i]| <= 1) ==> Kept(dets) == []
    ensures forall v :: v in Kept(dets) ==> exists i :: 0 <= i < |dets| && |dets[i]| > 1 && dets[i][1] == v
    decreases |dets|
  {
    if dets != [] {
      KeptShape(dets[1..]);
      forall v | v in Kept(dets)
        ensures exists i :: 0 <= i < |dets| && |dets[i]| > 1 && dets[i][1] == v
      {
        if v in KeptItem(dets[0]) {
          assert |dets[0]| > 1 && dets[0][1] == v;
        } else {
          var i :| 0 <= i < |dets[1..]| && |dets[1..][i]| > 1 && dets[1..][i][1] == v;
          assert dets[i + 1] == dets[1..][i];
        }
      }
    }
  }

  /** When every detection is well formed, the kept items are exactly the
      second items, one per detection, in the engine's order. */
  lemma {:induction false} KeptWellFormed(dets: seq<Detection>)
    requires forall i :: 0 <= i < |dets| ==> |dets[i]| > 1
    ensures |Kept(dets)| == |dets|
    ensures forall i :: 0 <= i < |dets| ==> Kept(dets)[i] == dets[i][1]
    decreases |dets|
  {
    if dets != [] {
      KeptWellFormed(dets[1..]);
    }
  }

  predicate AllStrings(vs: seq<Value>) {
    forall i :: 0 <= i < |vs| ==> vs[i].Str?
  }

  /** The index of the first item that is not a `str`, if there is one. */
  function FirstNonString(vs: seq<Value>): (r: Option<nat>)
    ensures r.None? <==> AllStrings(vs)
    ensures r.Some? ==> r.value < |vs| && vs[r.value].Other? && AllStrings(vs[..r.value])
  {
    if vs == [] then None
    else if vs[0].Other? then Some(0)
    else match FirstNonString(vs[1..])
      case None => None
      case Some(k) =>
        assert vs[..k + 1] == [vs[0]] + vs[1..][..k];
        Some(k + 1)
  }

  function Texts(vs: seq<Value>): (r: seq<string>)
    requires AllStrings(vs)
    ensures |r| == |vs| && forall i :: 0 <= i < |vs| ==> r[i] == vs[i].text
  {
    if vs == [] then [] else [vs[0].text] + Texts(vs[1..])
  }

  lemma TextsAppend(a: seq<Value>, b: seq<Value>)
    requires AllStrings(a) && AllStrings(b) && AllStrings(a + b)
    ensures Texts(a + b) == Texts(a) + Texts(b)
  {
    var l, r := Texts(a + b), Texts(a) + Texts(b);
    assert |l| == |r|;
    forall i | 0 <= i < |l| ensures l[i] == r[i] {
      if i < |a| { assert (a + b)[i] == a[i]; } else { assert (a + b)[i] == b[i - |a|]; }
    }
  }

  /** `str(e)` for the `TypeError` that `str.join` raises at the first item
      that is not a string, formatted with `"%.80s"`: the type name is cut
      after 80 bytes of its UTF-8 encoding. An ASCII type name, such as
      `list` or `float`, is cut to 80 characters. */
  function JoinTypeError(index: nat, typeName: string): (m: string)
    ensures IsAscii(typeName) ==>
      m == "sequence item " + Decimal(index) + ": expected str instance, "
             + (if |typeName| <= 80 then typeName else typeName[..80]) + " found"
  {
    var shown := CutToBytes(typeName, 80);
    assert IsAscii(typeName) ==> shown == if |typeName| <= 80 then typeName else typeName[..80] by {
      if IsAscii(typeName) {
        CutAscii(typeName, 80);
      }
    }
    "sequence item " + Decimal(index) + ": expected str instance, " + shown + " found"
  }

  /** A type name of 41 copies of `é` is 82 bytes long, so the message
      carries only 40 of them. */
  lemma NonAsciiTypeName()
    ensures JoinTypeError(0, seq(41, _ => '\U{E9}'))
            == "sequence item 0: expected str instance, " + seq(40, _ => '\U{E9}') + " found"
  {
    CutWholeCharacters();
  }

  /** Lines 93-94: the stripped, space-joined texts, or the message of the
      `TypeError` that the join raises when a kept item is not a string. */
  function AggregateText(dets: seq<Detection>): Result<string, string> {
    var kept := Kept(dets);
    match FirstNonString(kept)
    case Some(k) => Failure(JoinTypeError(k, kept[k].typeName))
    case None => Success(Strip(Join(" ", Texts(kept))))
  }

  /** The join, before stripping, when every kept item is a string. */
  function JoinedText(dets: seq<Detection>): string
    requires AllStrings(Kept(dets))
  {
    Join(" ", Texts(Kept(dets)))
  }

  /** Aggregation fails exactly when some kept item is not a string; then the
      message names the first such item. Otherwise the text is the strip of
      the join, so it neither starts nor ends with whitespace. */
  lemma AggregateOutcome(dets: seq<Detection>)
    ensures AggregateText(dets).Success? <==> AllStrings(Kept(dets))
    ensures AggregateText(dets).Success? ==>
      var t := AggregateText(dets).value;
      t == Strip(JoinedText(dets)) && (t == [] || (!IsSpace(t[0]) && !IsSpace(t[|t| - 1])))
    ensures AggregateText(dets).Failure? ==>
      exists k :: 0 <= k < |Kept(dets)| && Kept(dets)[k].Other? && AllStrings(Kept(dets)[..k])
                  && AggregateText(dets).error == JoinTypeError(k, Kept(dets)[k].typeName)
  {
  }

  /** No detections, or only malformed ones, aggregate to the empty string. */
  lemma AggregateNothing(dets: seq<Detection>)
    requires forall i :: 0 <= i < |dets| ==> |dets[i]| <= 1
    ensures AggregateText(dets) == Success("")
  {
    KeptShape(dets);
  }

  /** Before stripping, the texts of two runs of detections are separated by
      exactly one inserted space. */
  lemma JoinedAppend(a: seq<Detection>, b: seq<Detection>)
    requires AllStrings(Kept(a)) && AllStrings(Kept(b))
    requires Kept(a) != [] && Kept(b) != []
    ensures AllStrings(Kept(a + b))
    ensures JoinedText(a + b) == JoinedText(a) + " " + JoinedText(b)
  {
    KeptAppend(a, b);
    var ka: seq<Value>, kb: seq<Value> := Kept(a), Kept(b);
    assert AllStrings(ka + kb) by {
      forall i | 0 <= i < |ka + kb| ensures (ka + kb)[i].Str? {
        if i < |ka| { assert (ka + kb)[i] == ka[i]; } else { assert (ka + kb)[i] == kb[i - |ka|]; }
      }
    }
    TextsAppend(ka, kb);
    JoinAppend(" ", Texts(ka), Texts(kb));
  }

  /** Three detections as the engine returns them: box, text, confidence;
      the middle one is malformed. */
  const ExampleDetections: seq<Detection> :=
    [[Other("list"), Str("REPUBLIC"), Other("float")],
     [Other("list")],
     [Other("list"), Str("  ID "), Other("float")]]

  /** The malformed detection is dropped; the others give their texts in order. */
  lemma ExampleKept()
    ensures Kept(ExampleDetections) == [Str("REPUBLIC"), Str("  ID ")]
  {
    var d0, d1, d2 := ExampleDetections[0], ExampleDetections[1], ExampleDetections[2];
    assert ExampleDetections == [d0] + [d1] + [d2];
    KeptAppend([d0] + [d1], [d2]);
    KeptAppend([d0], [d1]);
    assert Kept([d0]) == [Str("REPUBLIC")];
    assert Kept([d1]) == [];
    assert Kept([d2]) == [Str("  ID ")];
  }

  /** Only the outer whitespace is stripped. */
  lemma ExampleStripped()
    ensures Strip("REPUBLIC   ID ") == "REPUBLIC   ID"
  {
    assert LeadingEnd("REPUBLIC   ID ", 0) == 0;
    assert TrailingEnd("REPUBLIC   ID ", 0, 14) == 13;
  }

  /** Detections carrying "REPUBLIC" and "  ID " aggregate to
      "REPUBLIC   ID": a malformed detection in between is dropped, one space
      is inserted, only the outer whitespace is stripped and the inner run
      is kept. */
  lemma AggregateExample()
    ensures AggregateText(ExampleDetections) == Success("REPUBLIC   ID")
  {
    var kept: seq<Value> := [Str("REPUBLIC"), Str("  ID ")];
    ExampleKept();
    assert FirstNonString(kept) == None;
    assert Texts(kept) == ["REPUBLIC", "  ID "];
    assert Join(" ", ["REPUBLIC", "  ID "]) == "REPUBLIC   ID ";
    ExampleStripped();
  }
}
