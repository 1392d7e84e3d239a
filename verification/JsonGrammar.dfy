/** The JSON texts the reader accepts, as a recursive descent. */
module JsonGrammar {
  import opened Bytes
  import opened IntegerReader
  import opened NumberText
  import opened NumberPlace
  import opened JsonString
  import opened JsonTree

  const COMMA: byte := 44
  const COLON: byte := 58

  predicate IsSpace(b: byte) {
    b == SP || b == HT || b == LF || b == CR
  }

  /** The first character from `i` on that is no space. */
  function Skip(s: seq<byte>, i: nat): (j: nat)
    ensures i <= j && !IsSpace(At(s, j))
    ensures i <= |s| ==> j <= |s|
    decreases |s| - i
  {
    if IsSpace(At(s, i)) then Skip(s, i + 1) else i
  }

  lemma SkipOne(s: seq<byte>, i: nat)
    requires IsSpace(At(s, i))
    ensures Skip(s, i) == Skip(s, i + 1) && i < |s|
  {
  }

  /** char_is_num. */
  predicate StartsNumber(b: byte) {
    IsDigit(b) || b == 45 || b == 43 || b == 46
  }

  /** A number: an integer that fits a word, or a real that the reader does not refuse, as its double. */
  ghost function NumberAt(s: seq<byte>, i: nat): (r: Option<(Atom, nat)>)
    ensures r.Some? ==> i < r.value.1 <= |s|
  {
    var q := i + Sign(s, i);
    var e := RunEnd(s, q);
    if IntegerText(s, i) && FitsWord(s, i) then
      Some((Int(Sign(s, i) == 1, Stored(s, i)), e))
    else
      match NumberEnd(s, i)
      case None => None
      case Some(x) =>
        if x > |s| || Refused(s, i) then None else Some((Atom.Real(DoubleBits(TextOf(s, i))), x))
  }

  lemma {:induction false} StringEnds(s: seq<byte>, i: nat)
    ensures StringAt(s, i).Done? ==> i < StringAt(s, i).end <= |s|
    decreases |s| - i
  {
    if PieceAt(s, i).Chars? {
      StringEnds(s, i + PieceAt(s, i).size);
    }
  }

  const TRUE: seq<byte> := [116, 114, 117, 101]
  const FALSE: seq<byte> := [102, 97, 108, 115, 101]
  const NULL: seq<byte> := [110, 117, 108, 108]

  function LiteralAt(s: seq<byte>, i: nat, word: seq<byte>, a: Atom): (r: Option<(Atom, nat)>)
    requires word != []
    ensures r.Some? ==> i < r.value.1 <= |s|
  {
    if Holds(s, i, word) then Some((a, i + |word|)) else None
  }

  function KeyAt(s: seq<byte>, i: nat): (r: Option<(Atom, nat)>)
    ensures r.Some? ==> i < r.value.1 <= |s| && r.value.0.Str?
  {
    if At(s, i) != QUOTE then None
    else
      StringEnds(s, i + 1);
      match StringAt(s, i + 1)
      case Fail(_) => None
      case Done(bytes, end) => Some((Str(bytes), end))
  }

  /** A value of one slot. */
  ghost function ScalarAt(s: seq<byte>, i: nat): (r: Option<(Atom, nat)>)
    ensures r.Some? ==> i < r.value.1 <= |s|
  {
    var b := At(s, i);
    if StartsNumber(b) then NumberAt(s, i)
    else if b == QUOTE then KeyAt(s, i)
    else if b == TRUE[0] then LiteralAt(s, i, TRUE, Bool(true))
    else if b == FALSE[0] then LiteralAt(s, i, FALSE, Bool(false))
    else if b == NULL[0] then LiteralAt(s, i, NULL, Null)
    else None
  }

  function Open(obj: bool): byte {
    if obj then 123 else 91
  }

  function Close(obj: bool): byte {
    if obj then 125 else 93
  }

  datatype Parsed<T> = Ok(v: T, end: nat) | Err

  /** A container, after its opening bracket. */
  ghost function ContainerAt(obj: bool, s: seq<byte>, i: nat): (r: Parsed<Json>)
    requires i <= |s|
    ensures r.Ok? ==> i < r.end <= |s|
    decreases |s| - i, 3
  {
    match FirstAt(obj, s, i)
    case Err => Err
    case Ok(kids, e) => Ok(Node(obj, kids), e)
  }

  /** All of its children. */
  ghost function FirstAt(obj: bool, s: seq<byte>, i: nat): (r: Parsed<Forest>)
    requires i <= |s|
    ensures r.Ok? ==> i < r.end <= |s|
    decreases |s| - i, 2
  {
    var j := Skip(s, i);
    if At(s, j) == Close(obj) then Ok(Nil, j + 1) else ElementAt(obj, s, i)
  }

  function Then(v: Json, r: Parsed<Forest>): (q: Parsed<Forest>)
    ensures q.Ok? <==> r.Ok?
    ensures q.Ok? ==> q.end == r.end
  {
    match r
    case Err => Err
    case Ok(f, e) => Ok(Cons(v, f), e)
  }

  /** An element, or a key with its value, and those that follow. */
  ghost function ElementAt(obj: bool, s: seq<byte>, i: nat): (r: Parsed<Forest>)
    requires i <= |s|
    ensures r.Ok? ==> i < r.end <= |s|
    decreases |s| - i, 1
  {
    if obj then
      match KeyAt(s, Skip(s, i))
      case None => Err
      case Some((k, e)) => Then(Leaf(k), AfterKeyAt(s, e))
    else
      PairValueAt(false, s, i)
  }

  /** The colon after a key, its value, and what follows. */
  ghost function AfterKeyAt(s: seq<byte>, i: nat): (r: Parsed<Forest>)
    requires i <= |s|
    ensures r.Ok? ==> i < r.end <= |s|
    decreases |s| - i, 0
  {
    var j := Skip(s, i);
    if At(s, j) != COLON then Err else PairValueAt(true, s, j + 1)
  }

  /** A value and what follows it in its container. */
  ghost function PairValueAt(obj: bool, s: seq<byte>, i: nat): (r: Parsed<Forest>)
    requires i <= |s|
    ensures r.Ok? ==> i < r.end <= |s|
    decreases |s| - i, 0
  {
    var j := Skip(s, i);
    if At(s, j) == Open(true) then
      (match ContainerAt(true, s, j + 1)
       case Err => Err
       case Ok(v, e) => Then(v, RestAt(obj, s, e)))
    else if At(s, j) == Open(false) then
      (match ContainerAt(false, s, j + 1)
       case Err => Err
       case Ok(v, e) => Then(v, RestAt(obj, s, e)))
    else
      match ScalarAt(s, j)
      case None => Err
      case Some((a, e)) => Then(Leaf(a), RestAt(obj, s, e))
  }

  /** What follows a value: a comma and another element, or the end of the container. */
  ghost function RestAt(obj: bool, s: seq<byte>, i: nat): (r: Parsed<Forest>)
    requires i <= |s|
    ensures r.Ok? ==> i < r.end <= |s|
    decreases |s| - i, 4
  {
    var j := Skip(s, i);
    if At(s, j) == COMMA then ElementAt(obj, s, j + 1)
    else if At(s, j) == Close(obj) then Ok(Nil, j + 1)
    else Err
  }

  /** A whole document with a container at its root: nothing but spaces after it. */
  ghost function DocumentAt(s: seq<byte>, i: nat): Parsed<Json>
    requires i <= |s|
  {
    if At(s, i) != Open(true) && At(s, i) != Open(false) then Err
    else
      match ContainerAt(At(s, i) == Open(true), s, i + 1)
      case Err => Err
      case Ok(t, e) => if Skip(s, e) < |s| then Err else Ok(t, e)
  }

  /** A whole document of one slot. */
  ghost function SingleAt(s: seq<byte>, i: nat): Parsed<Json> {
    match ScalarAt(s, i)
    case None => Err
    case Some((a, e)) => if Skip(s, e) < |s| then Err else Ok(Leaf(a), e)
  }

  /** What a whole text means: spaces, a container or a value of one slot, and spaces. */
  ghost function TextAt(s: seq<byte>): Parsed<Json> {
    var i := Skip(s, 0);
    if At(s, i) == Open(true) || At(s, i) == Open(false) then DocumentAt(s, i) else SingleAt(s, i)
  }

  // What is read is well shaped.

  lemma {:induction false} ContainerShaped(obj: bool, s: seq<byte>, i: nat)
    requires i <= |s|
    ensures ContainerAt(obj, s, i).Ok? ==> Shaped(ContainerAt(obj, s, i).v)
    decreases |s| - i, 3
  {
    var j := Skip(s, i);
    if At(s, j) != Close(obj) {
      ElementShaped(obj, s, i);
    }
  }

  lemma {:induction false} ElementShaped(obj: bool, s: seq<byte>, i: nat)
    requires i <= |s|
    ensures var r := ElementAt(obj, s, i);
            r.Ok? ==> if obj then ShapedPairs(r.v) else ShapedItems(r.v)
    decreases |s| - i, 1
  {
    if obj {
      var k := KeyAt(s, Skip(s, i));
      if k.Some? {
        var j := Skip(s, k.value.1);
        if At(s, j) == COLON {
          PairShaped(true, s, j + 1);
        }
      }
    } else {
      PairShaped(false, s, i);
    }
  }

  lemma {:induction false} PairShaped(obj: bool, s: seq<byte>, i: nat)
    requires i <= |s|
    ensures var r := PairValueAt(obj, s, i);
            r.Ok? ==> r.v.Cons? && Shaped(r.v.head) && if obj then ShapedPairs(r.v.tail) else ShapedItems(r.v.tail)
    decreases |s| - i, 0
  {
    var j := Skip(s, i);
    if At(s, j) == Open(true) || At(s, j) == Open(false) {
      var o := At(s, j) == Open(true);
      ContainerShaped(o, s, j + 1);
      if ContainerAt(o, s, j + 1).Ok? {
        RestShaped(obj, s, ContainerAt(o, s, j + 1).end);
      }
    } else if ScalarAt(s, j).Some? {
      RestShaped(obj, s, ScalarAt(s, j).value.1);
    }
  }

  lemma {:induction false} RestShaped(obj: bool, s: seq<byte>, i: nat)
    requires i <= |s|
    ensures var r := RestAt(obj, s, i);
            r.Ok? ==> if obj then ShapedPairs(r.v) else ShapedItems(r.v)
    decreases |s| - i, 4
  {
    var j := Skip(s, i);
    if At(s, j) == COMMA {
      ElementShaped(obj, s, j + 1);
    }
  }
}
