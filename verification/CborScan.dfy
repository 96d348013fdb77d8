/** Bounded preflight of definite-length CBOR (section 3 of RFC 8949): scanner, item trees and their agreement. */
module CborScan {
  import opened Bytes

  const MAX_BYTES: nat := 4 * 1024 * 1024
  const MAX_NODES: nat := 32_768
  const MAX_DEPTH: nat := 24

  datatype ScanError =
    | NestingOrNodes
    | Truncated
    | UnsupportedSimple
    | TruncatedArgument
    | Indefinite
    | TruncatedString
    | MapTooLarge
    | ArrayTooLarge
    | ExceedsBudget
    | SizeOutsideBound
    | Trailing

  /** Where a scan has got to: next offset and remaining node budget. */
  datatype Progress = Progress(offset: nat, budget: nat)

  type Scanned = Result<Progress, ScanError>

  //
  // The scanner
  //

  /** Argument width of additional information 24 to 27. */
  function Width(ai: nat): nat {
    if ai == 24 then 1 else if ai == 25 then 2 else if ai == 26 then 4 else 8
  }

  /** The argument after a head byte at `offset`, and where it ends. */
  function Argument(b: bytes, offset: nat, ai: nat): Result<(nat, nat), ScanError> {
    if ai < 24 then Ok((ai, offset))
    else if ai > 27 then Err(Indefinite)
    else if offset + Width(ai) > |b| then Err(TruncatedArgument)
    else Ok((FromBe(b[offset..offset + Width(ai)]), offset + Width(ai)))
  }

  function Rank(depth: nat): nat {
    if depth <= MAX_DEPTH + 1 then MAX_DEPTH + 2 - depth else 0
  }

  /** Number of child items of a container, or the error for one that is too large. */
  function Children(major: nat, length: nat): Result<nat, ScanError> {
    if major == 5 then if length <= 128 then Ok(length * 2) else Err(MapTooLarge)
    else if length <= 4096 then Ok(length) else Err(ArrayTooLarge)
  }

  /** Scans one item. With `early` unset, the test of a container's count against the budget is left out. */
  function Scan(b: bytes, offset: nat, depth: nat, budget: nat, early: bool): Scanned
    decreases Rank(depth), 0
  {
    if depth > MAX_DEPTH || budget == 0 then Err(NestingOrNodes)
    else if offset >= |b| then Err(Truncated) else
    var major, ai := b[offset] / 32, b[offset] % 32;
    if major == 7 then
      if ai == 20 || ai == 21 || ai == 22 then Ok(Progress(offset + 1, budget - 1)) else Err(UnsupportedSimple)
    else
      var (length, next) :- Argument(b, offset + 1, ai);
      if major <= 1 then Ok(Progress(next, budget - 1))
      else if major <= 3 then
        if next + length <= |b| then Ok(Progress(next + length, budget - 1)) else Err(TruncatedString)
      else if major <= 5 then
        var count :- Children(major, length);
        if early && count > budget - 1 then Err(ExceedsBudget)
        else ScanMany(b, next, depth + 1, budget - 1, count, early)
      else Scan(b, next, depth + 1, budget - 1, early)
  }

  function ScanMany(b: bytes, offset: nat, depth: nat, budget: nat, count: nat, early: bool): Scanned
    decreases Rank(depth), count + 1
  {
    if count == 0 then Ok(Progress(offset, budget)) else
    var p :- Scan(b, offset, depth, budget, early);
    ScanMany(b, p.offset, depth, p.budget, count - 1, early)
  }

  //
  // Item trees
  //

  datatype Arg = Short(value: nat) | Long(ai: nat, value: nat)

  datatype Item =
    | Simple(ai: nat)
    | Number(major: nat, arg: Arg)
    | Text(major: nat, arg: Arg, content: bytes)
    | Container(major: nat, arg: Arg, items: seq<Item>)
    | Tag(arg: Arg, item: Item)

  predicate ArgOk(a: Arg) {
    match a
    case Short(v) => v < 24
    case Long(ai, v) =>
      || (ai == 24 && v < 0x100)
      || (ai == 25 && v < 0x1_0000)
      || (ai == 26 && v < U32)
      || (ai == 27 && v < U64)
  }

  function Ai(a: Arg): nat {
    match a
    case Short(v) => v
    case Long(ai, _) => ai
  }

  function EncodeHead(major: nat, a: Arg): bytes
    requires major < 8 && ArgOk(a)
  {
    [major * 32 + Ai(a)] + Following(a)
  }

  /** The one, two, four or eight bytes of a long argument. */
  function Following(a: Arg): bytes
    requires ArgOk(a)
  {
    if a.Short? then []
    else if a.ai == 24 then Be(a.value, 1)
    else if a.ai == 25 then Be(a.value, 2)
    else if a.ai == 26 then Be(a.value, 4)
    else Be(a.value, 8)
  }

  /** An array has as many items as its argument says, at most 4096; a map two for each of at most 128 pairs. */
  predicate CountOk(major: nat, length: nat, count: nat) {
    || (major == 4 && count == length && length <= 4096)
    || (major == 5 && count == 2 * length && length <= 128)
  }

  lemma ChildrenExactly(major: nat, length: nat, count: nat)
    requires 4 <= major <= 5
    ensures Children(major, length) == Ok(count) <==> CountOk(major, length, count)
  {
  }

  lemma WidthExactly(a: Arg)
    requires a.Long?
    ensures ArgOk(a) <==> 24 <= a.ai <= 27 && a.value < Pow256(Width(a.ai))
    ensures ArgOk(a) ==> Following(a) == Be(a.value, Width(a.ai))
  {
    hide Pow256, Be;
    PowWidths();
  }

  /** The item is of this profile. */
  ghost predicate ItemOk(i: Item)
    decreases i
  {
    match i
    case Simple(ai) => ai == 20 || ai == 21 || ai == 22
    case Number(major, arg) => major <= 1 && ArgOk(arg)
    case Text(major, arg, content) => 2 <= major <= 3 && ArgOk(arg) && |content| == arg.value
    case Container(major, arg, items) =>
      && ArgOk(arg) && CountOk(major, arg.value, |items|)
      && forall k :: 0 <= k < |items| ==> ItemOk(items[k])
    case Tag(arg, item) => ArgOk(arg) && ItemOk(item)
  }

  ghost predicate ItemsOk(items: seq<Item>) {
    forall k :: 0 <= k < |items| ==> ItemOk(items[k])
  }

  ghost function Encode(i: Item): bytes
    requires ItemOk(i)
    decreases i, 1
  {
    match i
    case Simple(ai) => [7 * 32 + ai]
    case Number(major, arg) => EncodeHead(major, arg)
    case Text(major, arg, content) => EncodeHead(major, arg) + content
    case Container(major, arg, items) => EncodeHead(major, arg) + EncodeAll(items)
    case Tag(arg, item) => EncodeHead(6, arg) + Encode(item)
  }

  ghost function EncodeAll(items: seq<Item>): bytes
    requires ItemsOk(items)
    decreases items, 0
  {
    if items == [] then [] else Encode(items[0]) + EncodeAll(items[1..])
  }

  /** Nesting below an item. */
  function Depth(i: Item): nat
    decreases i, 1
  {
    match i
    case Container(_, _, items) => if items == [] then 0 else 1 + DepthAll(items)
    case Tag(_, item) => 1 + Depth(item)
    case _ => 0
  }

  function DepthAll(items: seq<Item>): nat
    decreases items, 0
  {
    if items == [] then 0
    else
      var head, tail := Depth(items[0]), DepthAll(items[1..]);
      if head > tail then head else tail
  }

  function Nodes(i: Item): (n: nat)
    ensures n >= 1
    decreases i, 1
  {
    match i
    case Container(_, _, items) => 1 + NodesAll(items)
    case Tag(_, item) => 1 + Nodes(item)
    case _ => 1
  }

  function NodesAll(items: seq<Item>): (n: nat)
    ensures n >= |items|
    decreases items, 0
  {
    if items == [] then 0 else Nodes(items[0]) + NodesAll(items[1..])
  }

  //
  // Heads
  //

  lemma HeadForward(b: bytes, offset: nat, major: nat, a: Arg)
    requires major < 7 && ArgOk(a) && At(b, offset, EncodeHead(major, a))
    ensures offset < |b| && b[offset] / 32 == major && b[offset] % 32 == Ai(a)
    ensures Argument(b, offset + 1, Ai(a)) == Ok((a.value, offset + |EncodeHead(major, a)|))
  {
    hide Be, FromBe, Pow256;
    assert b[offset] == EncodeHead(major, a)[0];
    if a.Long? {
      WidthExactly(a);
      AtConcat(b, offset, [major * 32 + a.ai], Be(a.value, Width(a.ai)));
      BeRoundTrip(a.value, Width(a.ai));
    }
  }

  lemma HeadBackward(b: bytes, offset: nat) returns (a: Arg)
    requires offset < |b| && b[offset] / 32 < 7 && Argument(b, offset + 1, b[offset] % 32).Ok?
    ensures ArgOk(a) && At(b, offset, EncodeHead(b[offset] / 32, a)) && Ai(a) == b[offset] % 32
    ensures Argument(b, offset + 1, b[offset] % 32) == Ok((a.value, offset + |EncodeHead(b[offset] / 32, a)|))
  {
    hide Be, FromBe, Pow256;
    var major, ai := b[offset] / 32, b[offset] % 32;
    var (v, next) := Argument(b, offset + 1, ai).value;
    if ai < 24 {
      a := Short(v);
      assert b[offset..offset + 1] == [major * 32 + ai];
    } else {
      a := Long(ai, v);
      FromBeRoundTrip(b[offset + 1..next]);
      WidthExactly(a);
      assert b[offset..offset + 1] == [major * 32 + ai];
      AtConcat(b, offset, [major * 32 + ai], Be(v, Width(ai)));
    }
  }

  //
  // Every item within the limits is scanned to its end
  //

  /** A well-formed item starts at `offset` and is within the depth and node limits. */
  ghost predicate Fits(b: bytes, offset: nat, depth: nat, budget: nat, i: Item) {
    ItemOk(i) && At(b, offset, Encode(i)) && depth + Depth(i) <= MAX_DEPTH && Nodes(i) <= budget
  }

  /** A head at `offset`, read as this argument, with room for one more node. */
  ghost predicate HeadAt(b: bytes, offset: nat, depth: nat, budget: nat, major: nat, arg: Arg) {
    major < 7 && ArgOk(arg) && At(b, offset, EncodeHead(major, arg)) && depth <= MAX_DEPTH && budget > 0
  }

  lemma SimpleFits(b: bytes, offset: nat, depth: nat, budget: nat, ai: nat)
    requires ai < 32
    ensures Fits(b, offset, depth, budget, Simple(ai)) <==>
            && depth <= MAX_DEPTH && budget > 0 && offset < |b|
            && b[offset] == 7 * 32 + ai && (ai == 20 || ai == 21 || ai == 22)
    ensures Fits(b, offset, depth, budget, Simple(ai)) ==> |Encode(Simple(ai))| == 1 == Nodes(Simple(ai))
  {
    if offset < |b| {
      assert b[offset..offset + 1] == [b[offset]];
    }
  }

  lemma NumberFits(b: bytes, offset: nat, depth: nat, budget: nat, major: nat, arg: Arg)
    ensures var i := Number(major, arg);
            && (Fits(b, offset, depth, budget, i) <==> HeadAt(b, offset, depth, budget, major, arg) && major <= 1)
            && (Fits(b, offset, depth, budget, i) ==> Encode(i) == EncodeHead(major, arg) && Nodes(i) == 1)
  {
    hide EncodeHead, ArgOk;
  }

  lemma TextFits(b: bytes, offset: nat, depth: nat, budget: nat, major: nat, arg: Arg, content: bytes)
    ensures var i := Text(major, arg, content);
            && (Fits(b, offset, depth, budget, i) <==>
                  && HeadAt(b, offset, depth, budget, major, arg) && 2 <= major <= 3 && |content| == arg.value
                  && At(b, offset + |EncodeHead(major, arg)|, content))
            && (Fits(b, offset, depth, budget, i) ==> Encode(i) == EncodeHead(major, arg) + content && Nodes(i) == 1)
  {
    hide EncodeHead, ArgOk, At;
    if 2 <= major <= 3 && ArgOk(arg) {
      AtConcat(b, offset, EncodeHead(major, arg), content);
    }
  }

  lemma ContainerFits(b: bytes, offset: nat, depth: nat, budget: nat, major: nat, arg: Arg, items: seq<Item>)
    ensures var i := Container(major, arg, items);
            && (Fits(b, offset, depth, budget, i) <==>
                  && HeadAt(b, offset, depth, budget, major, arg) && 4 <= major <= 5
                  && Children(major, arg.value) == Ok(|items|) && ItemsOk(items)
                  && At(b, offset + |EncodeHead(major, arg)|, EncodeAll(items)) && NodesAll(items) <= budget - 1
                  && (items != [] ==> depth + 1 + DepthAll(items) <= MAX_DEPTH))
            && (Fits(b, offset, depth, budget, i) ==>
                  Encode(i) == EncodeHead(major, arg) + EncodeAll(items) && Nodes(i) == 1 + NodesAll(items))
  {
    hide EncodeHead, ArgOk, EncodeAll, NodesAll, DepthAll, Children, At;
    if 4 <= major <= 5 {
      ChildrenExactly(major, arg.value, |items|);
    }
    if 4 <= major <= 5 && ArgOk(arg) && ItemsOk(items) {
      AtConcat(b, offset, EncodeHead(major, arg), EncodeAll(items));
    }
  }

  lemma TagFits(b: bytes, offset: nat, depth: nat, budget: nat, arg: Arg, item: Item)
    ensures var i := Tag(arg, item);
            && (Fits(b, offset, depth, budget, i) <==>
                  && HeadAt(b, offset, depth, budget, 6, arg)
                  && Fits(b, offset + |EncodeHead(6, arg)|, depth + 1, budget - 1, item))
            && (Fits(b, offset, depth, budget, i) ==>
                  Encode(i) == EncodeHead(6, arg) + Encode(item) && Nodes(i) == 1 + Nodes(item))
  {
    hide EncodeHead, ArgOk, At;
    if ArgOk(arg) && ItemOk(item) {
      AtConcat(b, offset, EncodeHead(6, arg), Encode(item));
    }
  }

  /** One step of the scanner at a head. */
  lemma ScanAtHead(b: bytes, offset: nat, depth: nat, budget: nat, early: bool, major: nat, arg: Arg)
    requires HeadAt(b, offset, depth, budget, major, arg)
    ensures var next := offset + |EncodeHead(major, arg)|;
            var count := Children(major, arg.value);
            Scan(b, offset, depth, budget, early) ==
              if major <= 1 then Ok(Progress(next, budget - 1))
              else if major <= 3 then
                if next + arg.value <= |b| then Ok(Progress(next + arg.value, budget - 1)) else Err(TruncatedString)
              else if major <= 5 then
                if count.Err? then Err(count.error)
                else if early && count.value > budget - 1 then Err(ExceedsBudget)
                else ScanMany(b, next, depth + 1, budget - 1, count.value, early)
              else Scan(b, next, depth + 1, budget - 1, early)
  {
    hide Argument, EncodeHead, ArgOk, At, ScanMany;
    HeadForward(b, offset, major, arg);
  }

  lemma {:induction false} ScanComplete(b: bytes, offset: nat, depth: nat, budget: nat, early: bool, i: Item)
    requires Fits(b, offset, depth, budget, i)
    ensures ItemOk(i) && Nodes(i) <= budget
    ensures Scan(b, offset, depth, budget, early) == Ok(Progress(offset + |Encode(i)|, budget - Nodes(i)))
    decreases i, 1
  {
    hide Scan, ScanMany, EncodeHead, ArgOk, Fits, ItemOk, Encode, EncodeAll, Depth, DepthAll, Nodes, NodesAll,
         Children, At;
    FitsOk(b, offset, depth, budget, i);
    match i
    case Simple(ai) =>
      SimpleFits(b, offset, depth, budget, ai);
      ScanSimple(b, offset, depth, budget, early);
    case Number(major, arg) =>
      NumberFits(b, offset, depth, budget, major, arg);
      ScanAtHead(b, offset, depth, budget, early, major, arg);
    case Text(major, arg, content) =>
      TextFits(b, offset, depth, budget, major, arg, content);
      ScanAtHead(b, offset, depth, budget, early, major, arg);
      AtEnds(b, offset + |EncodeHead(major, arg)|, content);
    case Container(major, arg, items) =>
      ContainerFits(b, offset, depth, budget, major, arg, items);
      ScanAtHead(b, offset, depth, budget, early, major, arg);
      ScanManyComplete(b, offset + |EncodeHead(major, arg)|, depth + 1, budget - 1, early, items);
    case Tag(arg, item) =>
      TagFits(b, offset, depth, budget, arg, item);
      ScanAtHead(b, offset, depth, budget, early, 6, arg);
      ScanComplete(b, offset + |EncodeHead(6, arg)|, depth + 1, budget - 1, early, item);
  }

  lemma ScanSimple(b: bytes, offset: nat, depth: nat, budget: nat, early: bool)
    requires depth <= MAX_DEPTH && budget > 0 && offset < |b| && b[offset] in {244, 245, 246}
    ensures Scan(b, offset, depth, budget, early) == Ok(Progress(offset + 1, budget - 1))
  {
  }

  lemma AtEnds(b: bytes, at: nat, x: bytes)
    requires At(b, at, x)
    ensures at + |x| <= |b|
  {
  }

  lemma FitsOk(b: bytes, offset: nat, depth: nat, budget: nat, i: Item)
    requires Fits(b, offset, depth, budget, i)
    ensures i.Simple? ==> i.ai < 32
    ensures ItemOk(i) && Nodes(i) <= budget
  {
  }

  lemma {:induction false} ScanManyComplete(
    b: bytes, offset: nat, depth: nat, budget: nat, early: bool, items: seq<Item>)
    requires ItemsOk(items) && At(b, offset, EncodeAll(items)) && NodesAll(items) <= budget
    requires items != [] ==> depth + DepthAll(items) <= MAX_DEPTH
    ensures ScanMany(b, offset, depth, budget, |items|, early) ==
            Ok(Progress(offset + |EncodeAll(items)|, budget - NodesAll(items)))
    decreases items, 0
  {
    hide Scan, ItemOk;
    if items != [] {
      AtConcat(b, offset, Encode(items[0]), EncodeAll(items[1..]));
      ScanComplete(b, offset, depth, budget, early, items[0]);
      ScanManyComplete(b, offset + |Encode(items[0])|, depth, budget - Nodes(items[0]), early, items[1..]);
    }
  }

  //
  // A successful scan has passed over exactly one item
  //

  lemma {:induction false} ScanSound(b: bytes, offset: nat, depth: nat, budget: nat, early: bool) returns (i: Item)
    requires Scan(b, offset, depth, budget, early).Ok?
    ensures Fits(b, offset, depth, budget, i)
    decreases Rank(depth), 0
  {
    hide Argument, EncodeHead, Fits, ItemOk, Encode, EncodeAll, Depth, DepthAll, Nodes, NodesAll, Children, ScanMany;
    var major, ai := b[offset] / 32, b[offset] % 32;
    if major == 7 {
      i := Simple(ai);
      SimpleFits(b, offset, depth, budget, ai);
    } else {
      var arg := HeadBackward(b, offset);
      var next := offset + |EncodeHead(major, arg)|;
      if major <= 1 {
        i := Number(major, arg);
        NumberFits(b, offset, depth, budget, major, arg);
      } else if major <= 3 {
        i := Text(major, arg, b[next..next + arg.value]);
        TextFits(b, offset, depth, budget, major, arg, i.content);
      } else if major <= 5 {
        var items := ScanManySound(b, next, depth + 1, budget - 1, Children(major, arg.value).value, early);
        i := Container(major, arg, items);
        ContainerFits(b, offset, depth, budget, major, arg, items);
      } else {
        var item := ScanSound(b, next, depth + 1, budget - 1, early);
        i := Tag(arg, item);
        TagFits(b, offset, depth, budget, arg, item);
      }
    }
  }

  lemma {:induction false} ScanManySound(b: bytes, offset: nat, depth: nat, budget: nat, count: nat, early: bool)
    returns (items: seq<Item>)
    requires ScanMany(b, offset, depth, budget, count, early).Ok? && offset <= |b|
    ensures |items| == count && ItemsOk(items) && At(b, offset, EncodeAll(items)) && NodesAll(items) <= budget
    ensures items != [] ==> depth + DepthAll(items) <= MAX_DEPTH
    decreases Rank(depth), count + 1
  {
    hide Scan, ItemOk;
    if count == 0 {
      items := [];
    } else {
      var i := ScanSound(b, offset, depth, budget, early);
      ScanComplete(b, offset, depth, budget, early, i);
      var next, left := offset + |Encode(i)|, budget - Nodes(i);
      var rest := ScanManySound(b, next, depth, left, count - 1, early);
      items := [i] + rest;
      assert items[1..] == rest;
      AtConcat(b, offset, Encode(i), EncodeAll(rest));
    }
  }

  //
  // Exactness
  //

  /**
   * The scanner succeeds exactly when some item of the profile starts at `offset` within the limits;
   * it stops at the end of that item and spends one budget unit per node.
   */
  lemma ScanExact(b: bytes, offset: nat, depth: nat, budget: nat, early: bool, p: Progress)
    ensures Scan(b, offset, depth, budget, early) == Ok(p) <==>
            exists i :: Fits(b, offset, depth, budget, i) && p == Progress(offset + |Encode(i)|, budget - Nodes(i))
  {
    hide Scan, Fits, Encode, Nodes;
    if Scan(b, offset, depth, budget, early).Ok? {
      var i := ScanSound(b, offset, depth, budget, early);
      FitsOk(b, offset, depth, budget, i);
      ScanComplete(b, offset, depth, budget, early, i);
    }
    forall i | Fits(b, offset, depth, budget, i)
      ensures ItemOk(i) && Nodes(i) <= budget
      ensures Scan(b, offset, depth, budget, early) == Ok(Progress(offset + |Encode(i)|, budget - Nodes(i)))
    {
      FitsOk(b, offset, depth, budget, i);
      ScanComplete(b, offset, depth, budget, early, i);
    }
  }

  /** The early test of a container's count never refuses what the full walk would accept. */
  lemma EarlyTestIsHarmless(b: bytes, offset: nat, depth: nat, budget: nat)
    ensures Scan(b, offset, depth, budget, true).Ok? <==> Scan(b, offset, depth, budget, false).Ok?
    ensures Scan(b, offset, depth, budget, true).Ok? ==>
              Scan(b, offset, depth, budget, true) == Scan(b, offset, depth, budget, false)
  {
    hide Scan, Fits, Encode, Nodes;
    if Scan(b, offset, depth, budget, true).Ok? {
      ScanExact(b, offset, depth, budget, true, Scan(b, offset, depth, budget, true).value);
      ScanExact(b, offset, depth, budget, false, Scan(b, offset, depth, budget, true).value);
    }
    if Scan(b, offset, depth, budget, false).Ok? {
      ScanExact(b, offset, depth, budget, true, Scan(b, offset, depth, budget, false).value);
      ScanExact(b, offset, depth, budget, false, Scan(b, offset, depth, budget, false).value);
    }
  }

  function Major(i: Item): nat {
    match i
    case Simple(_) => 7
    case Number(major, _) => major
    case Text(major, _, _) => major
    case Container(major, _, _) => major
    case Tag(_, _) => 6
  }

  lemma FirstByte(b: bytes, offset: nat, i: Item)
    requires ItemOk(i) && At(b, offset, Encode(i))
    ensures offset < |b| && b[offset] / 32 == Major(i)
    ensures i.Simple? ==> b[offset] % 32 == i.ai
    ensures !i.Simple? ==> At(b, offset, EncodeHead(Major(i), i.arg))
  {
    hide EncodeAll;
    assert b[offset] == Encode(i)[0];
    match i
    case Simple(_) =>
    case Number(_, _) =>
    case Text(major, arg, content) => AtConcat(b, offset, EncodeHead(major, arg), content);
    case Container(major, arg, items) => AtConcat(b, offset, EncodeHead(major, arg), EncodeAll(items));
    case Tag(arg, item) => AtConcat(b, offset, EncodeHead(6, arg), Encode(item));
  }

  lemma ArgUnique(b: bytes, offset: nat, major: nat, x: Arg, y: Arg)
    requires major < 7 && ArgOk(x) && ArgOk(y)
    requires At(b, offset, EncodeHead(major, x)) && At(b, offset, EncodeHead(major, y))
    ensures x == y
  {
    hide Argument, EncodeHead;
    HeadForward(b, offset, major, x);
    HeadForward(b, offset, major, y);
  }

  /** At most one item of the profile starts at a given offset. */
  lemma {:induction false} ItemUnique(b: bytes, offset: nat, i: Item, j: Item)
    requires ItemOk(i) && ItemOk(j) && At(b, offset, Encode(i)) && At(b, offset, Encode(j))
    ensures i == j
    decreases i, 1
  {
    hide EncodeHead;
    FirstByte(b, offset, i);
    FirstByte(b, offset, j);
    if !i.Simple? {
      ArgUnique(b, offset, Major(i), i.arg, j.arg);
      var head := EncodeHead(Major(i), i.arg);
      match i
      case Number(_, _) =>
      case Text(_, _, content) =>
        AtConcat(b, offset, head, content);
        AtConcat(b, offset, head, j.content);
      case Container(_, _, items) =>
        AtConcat(b, offset, head, EncodeAll(items));
        AtConcat(b, offset, head, EncodeAll(j.items));
        ItemsUnique(b, offset + |head|, items, j.items);
      case Tag(_, item) =>
        AtConcat(b, offset, head, Encode(item));
        AtConcat(b, offset, head, Encode(j.item));
        ItemUnique(b, offset + |head|, item, j.item);
    }
  }

  lemma {:induction false} ItemsUnique(b: bytes, offset: nat, xs: seq<Item>, ys: seq<Item>)
    requires ItemsOk(xs) && ItemsOk(ys) && |xs| == |ys| && At(b, offset, EncodeAll(xs)) && At(b, offset, EncodeAll(ys))
    ensures xs == ys
    decreases xs, 0
  {
    hide ItemOk, Encode;
    if xs != [] {
      AtConcat(b, offset, Encode(xs[0]), EncodeAll(xs[1..]));
      AtConcat(b, offset, Encode(ys[0]), EncodeAll(ys[1..]));
      ItemUnique(b, offset, xs[0], ys[0]);
      ItemsUnique(b, offset + |Encode(xs[0])|, xs[1..], ys[1..]);
      assert xs == [xs[0]] + xs[1..] && ys == [ys[0]] + ys[1..];
    }
  }

  //
  // The recursive scanner with its running offset and budget
  //

  /** A big-endian argument, shifted in byte by byte. */
  method FoldArgument(b: bytes) returns (n: nat)
    ensures n == FromBe(b)
  {
    n := 0;
    for i := 0 to |b|
      invariant n == FromBe(b[..i])
    {
      assert b[..i + 1][..i] == b[..i];
      n := n * 256 + b[i];
    }
    TakeAll(b);
  }

  method ScanItem(b: bytes, offset: nat, depth: nat, budget: nat) returns (r: Scanned)
    ensures r == Scan(b, offset, depth, budget, true)
    decreases Rank(depth), 0
  {
    hide FromBe;
    if depth > MAX_DEPTH || budget == 0 {
      return Err(NestingOrNodes);
    }
    if offset >= |b| {
      return Err(Truncated);
    }
    var left := budget - 1;
    var at := offset + 1;
    var major, ai := b[offset] / 32, b[offset] % 32;
    if major == 7 {
      return if ai == 20 || ai == 21 || ai == 22 then Ok(Progress(at, left)) else Err(UnsupportedSimple);
    }
    var length := ai;
    if ai > 27 {
      return Err(Indefinite);
    }
    if ai >= 24 {
      var end := at + Width(ai);
      if end > |b| {
        return Err(TruncatedArgument);
      }
      length := FoldArgument(b[at..end]);
      at := end;
    }
    if major <= 1 {
      return Ok(Progress(at, left));
    }
    if major <= 3 {
      return if at + length <= |b| then Ok(Progress(at + length, left)) else Err(TruncatedString);
    }
    if major == 6 {
      r := ScanItem(b, at, depth + 1, left);
      return;
    }
    r := ScanContainer(b, at, depth, left, major, length);
  }

  method ScanContainer(b: bytes, offset: nat, depth: nat, budget: nat, major: nat, length: nat) returns (r: Scanned)
    requires depth <= MAX_DEPTH
    ensures var count := Children(major, length);
            r == if count.Err? then Err(count.error)
                 else if count.value > budget then Err(ExceedsBudget)
                 else ScanMany(b, offset, depth + 1, budget, count.value, true)
    decreases Rank(depth + 1), 1
  {
    hide Scan;
    var count := Children(major, length);
    if count.Err? {
      return Err(count.error);
    }
    if count.value > budget {
      return Err(ExceedsBudget);
    }
    var at, left := offset, budget;
    for n := 0 to count.value
      invariant ScanMany(b, offset, depth + 1, budget, count.value, true) ==
                ScanMany(b, at, depth + 1, left, count.value - n, true)
    {
      var p := ScanItem(b, at, depth + 1, left);
      if p.Err? {
        return Err(p.error);
      }
      at, left := p.value.offset, p.value.budget;
    }
    r := Ok(Progress(at, left));
  }

  /** The whole preflight accepts exactly the encodings of items within the size, depth and node limits. */
  method Preflight(b: bytes) returns (r: Result<nat, ScanError>)
    ensures r.Ok? <==> |b| <= MAX_BYTES && exists i :: Fits(b, 0, 0, MAX_NODES, i) && b == Encode(i)
    ensures r.Ok? ==> exists i :: Fits(b, 0, 0, MAX_NODES, i) && b == Encode(i) && r.value == Nodes(i)
  {
    hide Scan, Nodes, Depth, Encode;
    if b == [] || |b| > MAX_BYTES {
      NeverEmpty();
      return Err(SizeOutsideBound);
    }
    var p := ScanItem(b, 0, 0, MAX_NODES);
    if p.Err? {
      PreflightFails(b);
      return Err(p.error);
    }
    ScanExact(b, 0, 0, MAX_NODES, true, p.value);
    ghost var i :| Fits(b, 0, 0, MAX_NODES, i) && p.value == Progress(|Encode(i)|, MAX_NODES - Nodes(i));
    if p.value.offset != |b| {
      PreflightStops(b, p.value);
      return Err(Trailing);
    }
    assert b == Encode(i);
    r := Ok(MAX_NODES - p.value.budget);
  }

  lemma NeverEmpty()
    ensures forall i :: ItemOk(i) ==> Encode(i) != []
  {
    hide EncodeAll;
  }

  lemma PreflightFails(b: bytes)
    requires Scan(b, 0, 0, MAX_NODES, true).Err?
    ensures !exists i :: Fits(b, 0, 0, MAX_NODES, i)
  {
    hide Scan, Nodes, Depth, Encode;
    forall i | Fits(b, 0, 0, MAX_NODES, i) ensures false {
      ScanComplete(b, 0, 0, MAX_NODES, true, i);
    }
  }

  lemma PreflightStops(b: bytes, p: Progress)
    requires Scan(b, 0, 0, MAX_NODES, true) == Ok(p) && p.offset != |b|
    ensures !exists i :: Fits(b, 0, 0, MAX_NODES, i) && b == Encode(i)
  {
    hide Scan, Nodes, Depth, Encode;
    forall i | Fits(b, 0, 0, MAX_NODES, i) ensures b != Encode(i) {
      ScanComplete(b, 0, 0, MAX_NODES, true, i);
    }
  }
}
