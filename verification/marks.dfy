/** Normalisation of the stored catch marks (the marks loop of `migrateIfNeeded`): every stored
    value, whatever its shape, becomes a record `{ caught: <boolean> }`. */
module Marks {
  import opened JsValues
  import opened AppState

  /** The normalised record `{ caught: b }`. */
  function CaughtRecord(b: bool): Json {
    JObj(map["caught" := JBool(b)])
  }

  /** What a stored value says about "caught": a boolean is taken as is, a truthy object (an
      array included) by the truthiness of its `caught` property (absent reads as
      `undefined`, which is falsy), and anything else as not caught. */
  function StoredCaught(v: Json): (b: bool)
    ensures v.JBool? ==> b == v.b
    ensures !v.JBool? && !v.JObj? ==> !b
    ensures v.JObj? ==> (b <==> "caught" in v.fields && Truthy(v.fields["caught"]))
  {
    if v.JBool? then v.b
    else if Truthy(v) && IsObjectType(v) then
      (match v
       case JObj(fields) => "caught" in fields && Truthy(fields["caught"])
       case _ => false)
    else false
  }

  /** The normalised marks table: the same keys, each value replaced by its record. */
  function NormalizeMarks(raw: map<string, Json>): (m: map<string, Json>)
    ensures m.Keys == raw.Keys
    ensures forall k :: k in m ==> m[k] == CaughtRecord(StoredCaught(raw[k]))
  {
    map k | k in raw :: CaughtRecord(StoredCaught(raw[k]))
  }

  /** A normalised record reads back as the flag it was made from. */
  lemma CaughtRecordReadsBack(b: bool)
    ensures StoredCaught(CaughtRecord(b)) == b
  {
    var fields := map["caught" := JBool(b)];
    assert "caught" in fields && fields["caught"] == JBool(b);
  }

  /** Normalisation keeps what every mark says about "caught". */
  lemma {:induction false} NormalizeKeepsCaught(raw: map<string, Json>, k: string)
    requires k in raw
    ensures StoredCaught(NormalizeMarks(raw)[k]) == StoredCaught(raw[k])
  {
    CaughtRecordReadsBack(StoredCaught(raw[k]));
  }

  /** Normalising twice is normalising once. */
  lemma NormalizeIdempotent(raw: map<string, Json>)
    ensures NormalizeMarks(NormalizeMarks(raw)) == NormalizeMarks(raw)
  {
    var m := NormalizeMarks(raw);
    forall k | k in m ensures CaughtRecord(StoredCaught(m[k])) == m[k] {
      CaughtRecordReadsBack(StoredCaught(raw[k]));
    }
  }

  /** The tables normalisation leaves alone are exactly those whose values are all records
      of the form `{ caught: <boolean> }`. */
  lemma NormalizeFixedPoints(raw: map<string, Json>)
    ensures NormalizeMarks(raw) == raw
            <==> forall k :: k in raw ==> exists b: bool :: raw[k] == CaughtRecord(b)
  {
    if NormalizeMarks(raw) == raw {
      forall k | k in raw ensures exists b: bool :: raw[k] == CaughtRecord(b) {
        assert raw[k] == CaughtRecord(StoredCaught(raw[k]));
      }
    }
    if forall k :: k in raw ==> exists b: bool :: raw[k] == CaughtRecord(b) {
      forall k | k in raw ensures NormalizeMarks(raw)[k] == raw[k] {
        var b: bool :| raw[k] == CaughtRecord(b);
        CaughtRecordReadsBack(b);
      }
    }
  }

  /** The marks table the rest of the application reads, once normalised. */
  function MarksTable(raw: map<string, Json>): (marks: map<string, Mark>)
    ensures marks.Keys == raw.Keys
    ensures forall k :: k in raw ==> MarkOf(marks, k).caught == StoredCaught(raw[k])
  {
    map k | k in raw :: Mark(StoredCaught(raw[k]))
  }
}
