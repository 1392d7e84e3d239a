/** A tree printed by the writer and read back by each of the readers. */
module JsonPipeline {
  import opened Bytes
  import opened Word64
  import opened JsonString
  import opened JsonTree
  import opened JsonGrammar
  import opened JsonText
  import opened JsonWriter
  import opened NumberValue
  import opened JsonReader
  import opened JsonRoundTrip
  import opened IncrTexts
  import opened IncrReader
  import opened JsonCuts

  /** Either one-shot reader gives back the tape that was printed, up to the sign of non-negative numbers. */
  method WriteThenRead(tape: seq<Cell>, ghost j: Json, t: Table, pretty: bool, hdrLen: nat, tables: Tables)
    returns (again: Option<seq<Cell>>)
    requires Filled(tables)
    requires j.Node? && tape == Encode(j) && PrintableJson(j) && 2 * |tape| + 3 < WORD
    ensures again == Some(Encode(Normal(j)))
  {
    DocumentRoundTrip(t, j);
    var text := WriteValue(tape, t, j);
    again := ReadRoot(text.value, 0, pretty, hdrLen, tables);
  }

  /** Any value printed and read back, containers or not. */
  method WriteThenReadText(tape: seq<Cell>, ghost j: Json, t: Table, hdrLen: nat, tables: Tables)
    returns (again: Option<seq<Cell>>)
    requires Filled(tables)
    requires tape == Encode(j) && PrintableJson(j) && 2 * |tape| + 3 < WORD
    ensures again == Some(Encode(Normal(j)))
  {
    TextRoundTrip(t, j);
    var text := WriteValue(tape, t, j);
    again := ReadText(text.value, hdrLen, tables);
  }

  lemma {:induction false} ExactWithoutReals(j: Json)
    requires Exact(j)
    ensures WithoutReals(Normal(j))
    decreases j, 1
  {
    if j.Node? {
      ExactNoneReal(j.kids);
    }
  }

  lemma {:induction false} ExactNoneReal(f: Forest)
    requires ExactForest(f)
    ensures NoneReal(NormalForest(f))
    decreases f, 0
  {
    if f.Cons? {
      ExactWithoutReals(f.head);
      ExactNoneReal(f.tail);
    }
  }

  lemma StartsAtOnce(t: Table, j: Json)
    requires j.Node? && DocumentAt(Minified(t, j), 0).Ok?
    ensures Skip(Minified(t, j), 0) == 0 && HasRoot(Minified(t, j))
  {
    hide Minified;
  }

  /** So does the incremental reader, in whatever pieces the text arrives. */
  method WriteThenFeed(tape: seq<Cell>, ghost j: Json, t: Table, cuts: seq<nat>, tables: Tables) returns (again: Fed)
    requires Filled(tables)
    requires j.Node? && tape == Encode(j) && PrintableJson(j) && 2 * |tape| + 3 < WORD
    requires Growing(cuts, |Minified(t, j)|)
    ensures again == Doc(Encode(Normal(j)))
  {
    DocumentRoundTrip(t, j);
    var text := WriteValue(tape, t, j);
    StartsAtOnce(t, j);
    ExactWithoutReals(j);
    forall k | 0 <= k < |cuts| ensures !BadCut(text.value, 0, cuts[k]) {
      DocumentClear(text.value, cuts[k]);
    }
    hide BadCut, Minified, DocumentAt;
    again := FeedAll(text.value, cuts, tables);
  }
}
