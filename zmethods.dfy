/**
  The general helpers of Runtime/ZMethods.cs: the float tolerance test, the
  saturating byte add, the range test, neighbourhood enumeration, dictionary
  add-or-increment, the 2-D index filters, lazy initialisation and the
  string-to-enum conversions.
*/
module ZMethods {
  import opened Wrappers
  import opened UnityTypes

  /** Math.Abs. */
  function Abs(x: real): (r: real)
    ensures r >= 0.0 && (r == x || r == -x)
  {
    if x < 0.0 then -x else x
  }

  function Max(a: real, b: real): real {
    if a < b then b else a
  }

  /** The tolerance of float comparisons: 1e-5 absolute, or 1e-6 relative to the larger magnitude. */
  function FloatTolerance(value1: real, value2: real): real {
    Max(0.00001, Max(Abs(value1), Abs(value2)) * 0.000001)
  }

  /** IsSameFloatValue, evaluated in exact arithmetic. */
  predicate IsSameFloatValue(value1: real, value2: real) {
    Abs(value1 - value2) <= FloatTolerance(value1, value2)
  }

  /** Against zero the relative part never helps: a magnitude is "the same as 0"
      exactly when it is at most the absolute tolerance 1e-5. */
  lemma SameAsZeroIffSmall(a: real)
    ensures IsSameFloatValue(Abs(a), 0.0) <==> Abs(a) <= 0.00001
  {
  }

  /** C#'s byte. */
  newtype byte = x: int | 0 <= x < 0x100

  /** C#'s int. */
  newtype int32 = x: int | -0x8000_0000 <= x < 0x8000_0000

  /** Unchecked 32-bit two's-complement wrap-around of an integer. */
  function Wrap32(v: int): (w: int32)
    ensures (w as int - v) % 0x1_0000_0000 == 0
    ensures -0x8000_0000 <= v < 0x8000_0000 ==> w as int == v
  {
    ((v + 0x8000_0000) % 0x1_0000_0000 - 0x8000_0000) as int32
  }

  function Distance(a: int, b: int): nat {
    if a < b then b - a else a - b
  }

  /** Clamps an integer into the byte range: the result is the byte nearest to v. */
  function Saturate(v: int): (b: byte)
    ensures forall c: int :: 0 <= c < 0x100 ==> Distance(b as int, v) <= Distance(c, v)
    ensures 0 <= v < 0x100 ==> b as int == v
  {
    if v < 0 then 0 else if v > 255 then 255 else v as byte
  }

  /** Two saturating adds in the same direction are one saturating add of the sum. */
  lemma SaturateComposes(v: byte, a: int, b: int)
    requires (0 <= a && 0 <= b) || (a <= 0 && b <= 0)
    ensures Saturate(Saturate(v as int + a) as int + b) == Saturate(v as int + a + b)
  {
  }

  /**
    AddToByte as written: the sum currentValue + amount is a C# int, so it wraps
    around before the range test; the new value is then clamped into [0, 255].
  */
  method AddToByte(currentValue: byte, amount: int32) returns (newValue: byte)
    ensures newValue == Saturate(Wrap32(currentValue as int + amount as int) as int)
    ensures -0x8000_0000 <= currentValue as int + amount as int < 0x8000_0000 ==>
      newValue == Saturate(currentValue as int + amount as int)
  {
    var result := Wrap32(currentValue as int + amount as int);
    if result < 0 {
      newValue := 0;
    } else if result > 255 {
      newValue := 255;
    } else {
      newValue := result as int as byte;
    }
  }

  /** Adding int.MaxValue to 1 wraps to int.MinValue, so the byte drops to 0 instead of saturating at 255. */
  lemma AddToByteWrapsOnHugeAmount()
    ensures Saturate(Wrap32(1 + 0x7FFF_FFFF) as int) == 0
    ensures Saturate(1 + 0x7FFF_FFFF) == 255
  {
  }

  /** AddToByte with the sum taken without wrap-around (as a 64-bit long would hold it). */
  method AddToByteWide(currentValue: byte, amount: int32) returns (newValue: byte)
    ensures newValue == Saturate(currentValue as int + amount as int)
  {
    var result: int := currentValue as int + amount as int;
    if result < 0 {
      newValue := 0;
    } else if result > 255 {
      newValue := 255;
    } else {
      newValue := result as byte;
    }
  }

  /** IndexIsInRange: index is a valid position in an array of arraySize elements. */
  function IndexIsInRange(index: int, arraySize: int): (b: bool)
    ensures b <==> 0 <= index < arraySize
    ensures b ==> 0 < arraySize
  {
    index >= 0 && index < arraySize
  }

  /** A valid index stays valid in a larger array, and no index is valid in an empty one. */
  lemma IndexIsInRangeGrows(index: int, arraySize: int, largerSize: int)
    requires arraySize <= largerSize
    ensures IndexIsInRange(index, arraySize) ==> IndexIsInRange(index, largerSize)
    ensures arraySize <= 0 ==> !IndexIsInRange(index, arraySize)
  {
  }

  /** p comes strictly before q when the rows are scanned y-outer, x-inner. */
  predicate ScanBefore(p: Vector2Int, q: Vector2Int) {
    p.y < q.y || (p.y == q.y && p.x < q.x)
  }

  predicate ScanOrdered(s: seq<Vector2Int>) {
    forall i, j :: 0 <= i < j < |s| ==> ScanBefore(s[i], s[j])
  }

  /** vertex + (dx, y - vertex.y) for dx from -range up to (not including) upto. */
  function NeighborRow(vertex: Vector2Int, y: int, range: int, upto: int): seq<Vector2Int>
    decreases upto + range
  {
    if upto <= -range then [] else NeighborRow(vertex, y, range, upto - 1) + [Vector2Int(vertex.x + upto - 1, y)]
  }

  /** The rows dy from -range up to (not including) upto, each listed dx from -range to range. */
  function NeighborRows(vertex: Vector2Int, range: int, upto: int): seq<Vector2Int>
    decreases upto + range
  {
    if upto <= -range then []
    else NeighborRows(vertex, range, upto - 1) + NeighborRow(vertex, vertex.y + upto - 1, range, range + 1)
  }

  /** The neighbourhood the enumeration lists: all rows dy in [-range, range]. */
  function Neighborhood(vertex: Vector2Int, range: int): seq<Vector2Int> {
    NeighborRows(vertex, range, range + 1)
  }

  /** GetNeighborIndices: vertex + (dx, dy) for dy from -range to range, dx from -range to
      range; the range is 1 unless given. */
  method GetNeighborIndices(vertex: Vector2Int, range: int := 1) returns (neighbors: seq<Vector2Int>)
    ensures neighbors == Neighborhood(vertex, range)
  {
    neighbors := [];
    var dy := -range;
    while dy <= range
      invariant -range <= dy && (range >= 0 ==> dy <= range + 1) && (range < 0 ==> dy == -range)
      invariant neighbors == NeighborRows(vertex, range, dy)
      decreases range - dy
    {
      var dx := -range;
      while dx <= range
        invariant -range <= dx <= range + 1
        invariant neighbors == NeighborRows(vertex, range, dy) + NeighborRow(vertex, vertex.y + dy, range, dx)
        decreases range - dx
      {
        neighbors := neighbors + [UnityTypes.Add(vertex, Vector2Int(dx, dy))];
        dx := dx + 1;
      }
      dy := dy + 1;
    }
    if range < 0 {
      assert NeighborRows(vertex, range, range + 1) == [];
    }
  }

  lemma {:induction false} NeighborRowLength(vertex: Vector2Int, y: int, range: int, upto: int)
    ensures |NeighborRow(vertex, y, range, upto)| == if upto <= -range then 0 else upto + range
    decreases upto + range
  {
    if -range < upto {
      NeighborRowLength(vertex, y, range, upto - 1);
    }
  }

  lemma {:induction false} NeighborRowMembers(vertex: Vector2Int, y: int, range: int, upto: int)
    ensures forall p :: p in NeighborRow(vertex, y, range, upto) <==> p.y == y && -range <= p.x - vertex.x < upto
    decreases upto + range
  {
    if -range < upto {
      NeighborRowMembers(vertex, y, range, upto - 1);
    }
  }

  lemma {:induction false} NeighborRowOrdered(vertex: Vector2Int, y: int, range: int, upto: int)
    ensures ScanOrdered(NeighborRow(vertex, y, range, upto))
    decreases upto + range
  {
    if -range < upto {
      var front := NeighborRow(vertex, y, range, upto - 1);
      var last := Vector2Int(vertex.x + upto - 1, y);
      NeighborRowOrdered(vertex, y, range, upto - 1);
      NeighborRowMembers(vertex, y, range, upto - 1);
      forall p, q | p in front && q in [last] ensures ScanBefore(p, q) {
      }
      ScanOrderedAppend(front, [last]);
    }
  }

  /** One more row of width w adds w to a length of a rows of width w. */
  lemma RowsTimesWidth(a: int, w: int)
    ensures a * w + w == (a + 1) * w
  {
  }

  lemma {:induction false} NeighborRowsLength(vertex: Vector2Int, range: int, upto: int)
    requires 0 <= range && upto <= range + 1
    ensures |NeighborRows(vertex, range, upto)| == if upto <= -range then 0 else (upto + range) * (2 * range + 1)
    decreases upto + range
  {
    if -range < upto {
      NeighborRowsLength(vertex, range, upto - 1);
      NeighborRowLength(vertex, vertex.y + upto - 1, range, range + 1);
      RowsTimesWidth(upto - 1 + range, 2 * range + 1);
    }
  }

  lemma {:induction false} NeighborRowsMembers(vertex: Vector2Int, range: int, upto: int)
    ensures forall p :: p in NeighborRows(vertex, range, upto) <==>
      -range <= p.y - vertex.y < upto && -range <= p.x - vertex.x <= range
    decreases upto + range
  {
    if -range < upto {
      NeighborRowsMembers(vertex, range, upto - 1);
      NeighborRowMembers(vertex, vertex.y + upto - 1, range, range + 1);
    }
  }

  lemma {:induction false} NeighborRowsOrdered(vertex: Vector2Int, range: int, upto: int)
    ensures ScanOrdered(NeighborRows(vertex, range, upto))
    decreases upto + range
  {
    if -range < upto {
      var front := NeighborRows(vertex, range, upto - 1);
      var row := NeighborRow(vertex, vertex.y + upto - 1, range, range + 1);
      NeighborRowsOrdered(vertex, range, upto - 1);
      NeighborRowsMembers(vertex, range, upto - 1);
      NeighborRowMembers(vertex, vertex.y + upto - 1, range, range + 1);
      NeighborRowOrdered(vertex, vertex.y + upto - 1, range, range + 1);
      forall p, q | p in front && q in row ensures ScanBefore(p, q) {
        assert p.y < vertex.y + upto - 1 == q.y;
      }
      ScanOrderedAppend(front, row);
    }
  }

  /** Two scan-ordered sequences, every element of the first before every element of the
      second, concatenate to a scan-ordered sequence. */
  lemma ScanOrderedAppend(a: seq<Vector2Int>, b: seq<Vector2Int>)
    requires ScanOrdered(a) && ScanOrdered(b)
    requires forall p, q :: p in a && q in b ==> ScanBefore(p, q)
    ensures ScanOrdered(a + b)
  {
    var all := a + b;
    forall i, j | 0 <= i < j < |all| ensures ScanBefore(all[i], all[j]) {
      if j < |a| {
        assert all[i] == a[i] && all[j] == a[j];
      } else if i < |a| {
        assert all[i] in a && all[j] in b;
      } else {
        assert all[i] == b[i - |a|] && all[j] == b[j - |a|];
      }
    }
  }

  /** The enumeration lists (2 range + 1)^2 points, none for a negative range, exactly the
      points within Chebyshev distance range of the vertex (the vertex itself included),
      each once, rows dy ascending and within a row dx ascending. */
  lemma NeighborhoodContents(vertex: Vector2Int, range: int)
    ensures |Neighborhood(vertex, range)| == if range < 0 then 0 else (2 * range + 1) * (2 * range + 1)
    ensures forall p :: p in Neighborhood(vertex, range) <==>
      Distance(p.x, vertex.x) <= range && Distance(p.y, vertex.y) <= range
    ensures ScanOrdered(Neighborhood(vertex, range))
    ensures 0 <= range ==> vertex in Neighborhood(vertex, range)
  {
    NeighborRowsMembers(vertex, range, range + 1);
    NeighborRowsOrdered(vertex, range, range + 1);
    if range >= 0 {
      NeighborRowsLength(vertex, range, range + 1);
    }
  }

  /** The dictionary after adding value to key's count, a missing key counting as 0. */
  function Incremented<K(!new)>(counts: map<K, int>, key: K, value: int): (r: map<K, int>)
    ensures key in r && r[key] == (if key in counts then counts[key] else 0) + value
    ensures forall k :: k != key ==> (k in r <==> k in counts) && (k in counts ==> r[k] == counts[k])
  {
    if key in counts then counts[key := counts[key] + value] else counts[key := value]
  }

  /** Two increments of one key are one increment by their sum. */
  lemma IncrementsCombine<K(!new)>(counts: map<K, int>, key: K, a: int, b: int)
    ensures Incremented(Incremented(counts, key, a), key, b) == Incremented(counts, key, a + b)
  {
  }

  /** Increments of different keys commute. */
  lemma IncrementsCommute<K(!new)>(counts: map<K, int>, key1: K, a: int, key2: K, b: int)
    requires key1 != key2
    ensures Incremented(Incremented(counts, key1, a), key2, b) == Incremented(Incremented(counts, key2, b), key1, a)
  {
  }

  /** A Dictionary<TKey, int> that AddOrIncrement updates in place. */
  class CountDictionary<K(==,!new)> {
    var counts: map<K, int>

    constructor (initial: map<K, int>)
      ensures counts == initial
    {
      counts := initial;
    }

    /** AddOrIncrement: the key's count grows by value (starts at value for a new key); no other key changes. */
    method AddOrIncrement(key: K, value: int)
      modifies this
      ensures counts == Incremented(old(counts), key, value)
    {
      if key in counts {
        counts := counts[key := counts[key] + value];
      } else {
        counts := counts[key := value];
      }
    }
  }

  /** Index (x, y) of the grid is listed by the value filter: its entry equals filterValue,
      or differs from it when filterOutValue is set. */
  predicate Kept<T(==)>(grid: array2<T>, p: Vector2Int, filterValue: T, filterOutValue: bool)
    reads grid
  {
    0 <= p.x < grid.Length0 && 0 <= p.y < grid.Length1 && (grid[p.x, p.y] == filterValue) != filterOutValue
  }

  /** FilterValueToIndexListCommon: every kept index, each once, in y-outer, x-inner scan order. */
  method FilterValueToIndexListCommon<T(==)>(grid: array2<T>, filterValue: T, filterOutValue: bool)
    returns (result: seq<Vector2Int>)
    ensures forall p :: p in result <==> Kept(grid, p, filterValue, filterOutValue)
    ensures ScanOrdered(result)
  {
    result := [];
    for y := 0 to grid.Length1
      invariant forall p :: p in result <==> Kept(grid, p, filterValue, filterOutValue) && p.y < y
      invariant ScanOrdered(result)
    {
      for x := 0 to grid.Length0
        invariant forall p :: p in result <==>
          Kept(grid, p, filterValue, filterOutValue) && (p.y < y || (p.y == y && p.x < x))
        invariant ScanOrdered(result)
      {
        if (grid[x, y] == filterValue) != filterOutValue {
          ScanOrderedAppend(result, [Vector2Int(x, y)]);
          result := result + [Vector2Int(x, y)];
        }
      }
    }
  }

  /** FilterOutValueToIndexList: the indices whose entry differs from filterValue. */
  method FilterOutValueToIndexList<T(==)>(grid: array2<T>, filterValue: T) returns (result: seq<Vector2Int>)
    ensures forall p :: p in result <==>
      0 <= p.x < grid.Length0 && 0 <= p.y < grid.Length1 && grid[p.x, p.y] != filterValue
    ensures ScanOrdered(result)
  {
    result := FilterValueToIndexListCommon(grid, filterValue, true);
  }

  /** FilterByValueToIndexList: the indices whose entry equals filterValue. */
  method FilterByValueToIndexList<T(==)>(grid: array2<T>, filterValue: T) returns (result: seq<Vector2Int>)
    ensures forall p :: p in result <==>
      0 <= p.x < grid.Length0 && 0 <= p.y < grid.Length1 && grid[p.x, p.y] == filterValue
    ensures ScanOrdered(result)
  {
    result := FilterValueToIndexListCommon(grid, filterValue, false);
  }

  /** NonDefaultToIndexList, with default(T) passed in: the indices whose entry is not the default. */
  method NonDefaultToIndexList<T(==)>(grid: array2<T>, defaultValue: T) returns (result: seq<Vector2Int>)
    ensures forall p :: p in result <==>
      0 <= p.x < grid.Length0 && 0 <= p.y < grid.Length1 && grid[p.x, p.y] != defaultValue
    ensures ScanOrdered(result)
  {
    result := [];
    for y := 0 to grid.Length1
      invariant forall p :: p in result <==> Kept(grid, p, defaultValue, true) && p.y < y
      invariant ScanOrdered(result)
    {
      for x := 0 to grid.Length0
        invariant forall p :: p in result <==> Kept(grid, p, defaultValue, true) && (p.y < y || (p.y == y && p.x < x))
        invariant ScanOrdered(result)
      {
        if grid[x, y] != defaultValue {
          ScanOrderedAppend(result, [Vector2Int(x, y)]);
          result := result + [Vector2Int(x, y)];
        }
      }
    }
  }

  /** The values the candidate enum types parse inputString to, in the order of the types;
      parse(type, s) stands for Enum.Parse, None where it throws ArgumentException. */
  function Parses<Ty, E>(inputString: string, types: seq<Ty>, parse: (Ty, string) -> Option<E>): (ps: seq<E>)
    ensures |ps| <= |types|
  {
    if types == [] then []
    else
      var last := parse(types[|types| - 1], inputString);
      Parses(inputString, types[..|types| - 1], parse) + (if last.Some? then [last.value] else [])
  }

  /** Exactly the values some candidate type parses to are listed. */
  lemma {:induction false} ParsesMembers<Ty, E>(inputString: string, types: seq<Ty>, parse: (Ty, string) -> Option<E>)
    ensures forall e :: e in Parses(inputString, types, parse) <==>
      exists i :: 0 <= i < |types| && parse(types[i], inputString) == Some(e)
  {
    if types != [] {
      var front := types[..|types| - 1];
      ParsesMembers(inputString, front, parse);
      forall e ensures e in Parses(inputString, types, parse) <==>
        exists i :: 0 <= i < |types| && parse(types[i], inputString) == Some(e)
      {
        if e in Parses(inputString, front, parse) {
          var i :| 0 <= i < |front| && parse(front[i], inputString) == Some(e);
          assert types[i] == front[i];
        }
        if exists i :: 0 <= i < |types| && parse(types[i], inputString) == Some(e) {
          var i :| 0 <= i < |types| && parse(types[i], inputString) == Some(e);
          if i < |front| {
            assert front[i] == types[i];
          }
        }
      }
    }
  }

  /** A longer list of candidate types never yields fewer parses. */
  lemma {:induction false} ParsesPrefix<Ty, E>(inputString: string, types: seq<Ty>, parse: (Ty, string) -> Option<E>, k: nat)
    requires k <= |types|
    ensures |Parses(inputString, types[..k], parse)| <= |Parses(inputString, types, parse)|
    decreases |types|
  {
    if k < |types| {
      ParsesPrefix(inputString, types[..|types| - 1], parse, k);
      assert types[..|types| - 1][..k] == types[..k];
    } else {
      assert types[..k] == types;
    }
  }

  /** The enum value inputString resolves to: present exactly when one candidate type
      parses it, and then the value that type gives. */
  function ResolveEnum<Ty, E>(inputString: string, types: seq<Ty>, parse: (Ty, string) -> Option<E>): (r: Option<E>)
    ensures r.Some? <==> |Parses(inputString, types, parse)| == 1
  {
    var ps := Parses(inputString, types, parse);
    if |ps| == 1 then Some(ps[0]) else None
  }

  /** A resolved value is what some candidate type parses the string to, and no other
      candidate parses it to anything else. */
  lemma ResolveEnumFound<Ty, E>(inputString: string, types: seq<Ty>, parse: (Ty, string) -> Option<E>)
    requires ResolveEnum(inputString, types, parse).Some?
    ensures exists i :: 0 <= i < |types| && parse(types[i], inputString) == ResolveEnum(inputString, types, parse)
    ensures forall i :: 0 <= i < |types| && parse(types[i], inputString).Some? ==>
      parse(types[i], inputString) == ResolveEnum(inputString, types, parse)
  {
    ParsesMembers(inputString, types, parse);
    var ps := Parses(inputString, types, parse);
    assert ps[0] in ps;
    forall i | 0 <= i < |types| && parse(types[i], inputString).Some?
      ensures parse(types[i], inputString) == ResolveEnum(inputString, types, parse)
    {
      ParsedValueListed(inputString, types, parse, i);
      var ps := Parses(inputString, types, parse);
      assert parse(types[i], inputString).value == ps[0];
    }
  }

  lemma ParsedValueListed<Ty, E>(inputString: string, types: seq<Ty>, parse: (Ty, string) -> Option<E>, i: int)
    requires 0 <= i < |types| && parse(types[i], inputString).Some?
    ensures parse(types[i], inputString).value in Parses(inputString, types, parse)
  {
    ParsesMembers(inputString, types, parse);
    var e := parse(types[i], inputString).value;
    assert parse(types[i], inputString) == Some(e);
  }

  /** ConvertStringToEnum: tries every candidate type in order; a second successful parse
      makes it ambiguous (null), no successful parse gives null. */
  method ConvertStringToEnum<Ty, E>(inputString: string, types: seq<Ty>, parse: (Ty, string) -> Option<E>)
    returns (r: Option<E>)
    ensures r == ResolveEnum(inputString, types, parse)
  {
    var enumKey: Option<E> := None;
    var parsedSuccessfully := false;
    for i := 0 to |types|
      invariant var ps := Parses(inputString, types[..i], parse);
        |ps| <= 1 && (parsedSuccessfully <==> |ps| == 1) && (parsedSuccessfully ==> enumKey == Some(ps[0]))
    {
      assert types[..i + 1][..i] == types[..i];
      var attempt := parse(types[i], inputString);
      if attempt.Some? {
        enumKey := attempt;
        if parsedSuccessfully {
          ParsesPrefix(inputString, types, parse, i + 1);
          return None;
        }
        parsedSuccessfully := true;
      }
    }
    assert types[..|types|] == types;
    if !parsedSuccessfully {
      return None;
    }
    return enumKey;
  }

  /** The outcome of ConvertKeysStringToEnum: the converted dictionary, null when a key
      does not resolve, or the exception Dictionary.Add throws when two keys resolve to
      the same enum value. */
  datatype KeyConversion<E, V> = Converted(dict: map<E, V>) | Unconvertible | DuplicateKey

  /**
    ConvertKeysStringToEnum: resolves every key of originalDict, visited in keyOrder
    (the dictionary's enumeration order), and re-keys its value under the resolved enum.
    A key that does not resolve makes the whole result null; two keys resolving to the
    same enum value make Add throw.
  */
  method ConvertKeysStringToEnum<Ty, E(==), V>(originalDict: map<string, V>, keyOrder: seq<string>,
                                               types: seq<Ty>, parse: (Ty, string) -> Option<E>)
    returns (r: KeyConversion<E, V>)
    requires forall k :: k in originalDict <==> k in keyOrder
    requires forall i, j :: 0 <= i < j < |keyOrder| ==> keyOrder[i] != keyOrder[j]
    ensures r.Converted? ==> forall k :: k in originalDict ==>
      ResolveEnum(k, types, parse).Some? && ResolveEnum(k, types, parse).value in r.dict &&
      r.dict[ResolveEnum(k, types, parse).value] == originalDict[k]
    ensures r.Converted? ==> forall e :: e in r.dict ==> exists k :: k in originalDict && ResolveEnum(k, types, parse) == Some(e)
    ensures r.Converted? ==> forall k1, k2 :: k1 in originalDict && k2 in originalDict && k1 != k2 ==>
      ResolveEnum(k1, types, parse) != ResolveEnum(k2, types, parse)
    ensures r.Unconvertible? ==> exists k :: k in originalDict && ResolveEnum(k, types, parse).None?
    ensures r.DuplicateKey? ==> exists k1, k2 ::
      (k1 in originalDict && k2 in originalDict && k1 != k2 &&
       ResolveEnum(k1, types, parse).Some? && ResolveEnum(k1, types, parse) == ResolveEnum(k2, types, parse))
  {
    var convertedDict: map<E, V> := map[];
    for i := 0 to |keyOrder|
      invariant RekeyedAs(convertedDict, keyOrder[..i], originalDict, types, parse)
    {
      var stringKey := keyOrder[i];
      var enumKey := ConvertStringToEnum(stringKey, types, parse);
      if enumKey.None? {
        return Unconvertible;
      }
      if enumKey.value in convertedDict {
        assert stringKey !in keyOrder[..i];
        RekeyedAsClash(convertedDict, keyOrder[..i], stringKey, originalDict, types, parse);
        return DuplicateKey;
      }
      RekeyedAsStep(convertedDict, keyOrder[..i], stringKey, originalDict, types, parse);
      PrefixGrows(keyOrder, i);
      convertedDict := convertedDict[enumKey.value := originalDict[stringKey]];
    }
    assert keyOrder[..|keyOrder|] == keyOrder;
    RekeyedAsComplete(convertedDict, keyOrder, originalDict, types, parse);
    r := Converted(convertedDict);
  }

  /** The prefix of length i + 1 is the prefix of length i followed by element i. */
  lemma PrefixGrows<T>(s: seq<T>, i: nat)
    requires i < |s|
    ensures s[..i + 1] == s[..i] + [s[i]]
  {
  }

  /** dict re-keys the values of the keys in keys under their resolutions: every key
      resolves and its value is stored under its resolution, and every entry of dict
      comes from one of the keys. */
  ghost predicate RekeyedAs<Ty, E, V>(dict: map<E, V>, keys: seq<string>, originalDict: map<string, V>,
                                types: seq<Ty>, parse: (Ty, string) -> Option<E>)
  {
    (forall j :: 0 <= j < |keys| ==>
      ResolveEnum(keys[j], types, parse).Some? && keys[j] in originalDict &&
      ResolveEnum(keys[j], types, parse).value in dict &&
      dict[ResolveEnum(keys[j], types, parse).value] == originalDict[keys[j]]) &&
    (forall e :: e in dict ==> exists j :: 0 <= j < |keys| && ResolveEnum(keys[j], types, parse) == Some(e)) &&
    (forall j1, j2 :: 0 <= j1 < j2 < |keys| ==> ResolveEnum(keys[j1], types, parse) != ResolveEnum(keys[j2], types, parse))
  }

  /** A key whose resolution is already taken clashes with an earlier, different key. */
  lemma RekeyedAsClash<Ty, E, V>(dict: map<E, V>, keys: seq<string>, key: string, originalDict: map<string, V>,
                                 types: seq<Ty>, parse: (Ty, string) -> Option<E>)
    requires RekeyedAs(dict, keys, originalDict, types, parse)
    requires key in originalDict && key !in keys && ResolveEnum(key, types, parse).Some?
    requires ResolveEnum(key, types, parse).value in dict
    ensures exists k1, k2 ::
      (k1 in originalDict && k2 in originalDict && k1 != k2 &&
       ResolveEnum(k1, types, parse).Some? && ResolveEnum(k1, types, parse) == ResolveEnum(k2, types, parse))
  {
    var j :| 0 <= j < |keys| && ResolveEnum(keys[j], types, parse) == ResolveEnum(key, types, parse);
    assert keys[j] in originalDict && keys[j] != key;
  }

  /** When the keys are exactly those of originalDict, the re-keyed dictionary holds every
      value under its key's resolution and nothing else. */
  lemma RekeyedAsComplete<Ty, E, V>(dict: map<E, V>, keys: seq<string>, originalDict: map<string, V>,
                                    types: seq<Ty>, parse: (Ty, string) -> Option<E>)
    requires RekeyedAs(dict, keys, originalDict, types, parse)
    requires forall k :: k in originalDict <==> k in keys
    ensures forall k :: k in originalDict ==>
      ResolveEnum(k, types, parse).Some? && ResolveEnum(k, types, parse).value in dict &&
      dict[ResolveEnum(k, types, parse).value] == originalDict[k]
    ensures forall e :: e in dict ==> exists k :: k in originalDict && ResolveEnum(k, types, parse) == Some(e)
    ensures forall k1, k2 :: k1 in originalDict && k2 in originalDict && k1 != k2 ==>
      ResolveEnum(k1, types, parse) != ResolveEnum(k2, types, parse)
  {
    forall k | k in originalDict
      ensures ResolveEnum(k, types, parse).Some? && ResolveEnum(k, types, parse).value in dict &&
        dict[ResolveEnum(k, types, parse).value] == originalDict[k]
    {
      var j :| 0 <= j < |keys| && keys[j] == k;
    }
    forall e | e in dict ensures exists k :: k in originalDict && ResolveEnum(k, types, parse) == Some(e) {
      var j :| 0 <= j < |keys| && ResolveEnum(keys[j], types, parse) == Some(e);
      assert keys[j] in originalDict;
    }
    forall k1, k2 | k1 in originalDict && k2 in originalDict && k1 != k2
      ensures ResolveEnum(k1, types, parse) != ResolveEnum(k2, types, parse)
    {
      var j1 :| 0 <= j1 < |keys| && keys[j1] == k1;
      var j2 :| 0 <= j2 < |keys| && keys[j2] == k2;
      assert j1 != j2;
    }
  }

  /** Adding a key whose resolution is new keeps the re-keying. */
  lemma RekeyedAsStep<Ty, E, V>(dict: map<E, V>, keys: seq<string>, key: string, originalDict: map<string, V>,
                                types: seq<Ty>, parse: (Ty, string) -> Option<E>)
    requires RekeyedAs(dict, keys, originalDict, types, parse)
    requires key in originalDict && ResolveEnum(key, types, parse).Some?
    requires ResolveEnum(key, types, parse).value !in dict
    ensures RekeyedAs(dict[ResolveEnum(key, types, parse).value := originalDict[key]], keys + [key],
                      originalDict, types, parse)
  {
    var e := ResolveEnum(key, types, parse).value;
    var dict' := dict[e := originalDict[key]];
    var keys' := keys + [key];
    forall j | 0 <= j < |keys'|
      ensures ResolveEnum(keys'[j], types, parse).Some? && keys'[j] in originalDict &&
        ResolveEnum(keys'[j], types, parse).value in dict' &&
        dict'[ResolveEnum(keys'[j], types, parse).value] == originalDict[keys'[j]]
    {
      if j < |keys| {
        assert keys'[j] == keys[j];
      }
    }
    forall e' | e' in dict' ensures exists j :: 0 <= j < |keys'| && ResolveEnum(keys'[j], types, parse) == Some(e') {
      if e' == e {
        assert keys'[|keys|] == key;
      } else {
        var j :| 0 <= j < |keys| && ResolveEnum(keys[j], types, parse) == Some(e');
        assert keys'[j] == keys[j];
      }
    }
    DistinctResolutionsStep(keys, key, types, parse);
  }

  /** Appending a key whose resolution differs from every earlier key's keeps the
      resolutions pairwise distinct. */
  lemma DistinctResolutionsStep<Ty, E>(keys: seq<string>, key: string, types: seq<Ty>, parse: (Ty, string) -> Option<E>)
    requires forall j1, j2 :: 0 <= j1 < j2 < |keys| ==> ResolveEnum(keys[j1], types, parse) != ResolveEnum(keys[j2], types, parse)
    requires forall j :: 0 <= j < |keys| ==> ResolveEnum(keys[j], types, parse) != ResolveEnum(key, types, parse)
    ensures forall j1, j2 :: 0 <= j1 < j2 < |keys + [key]| ==>
      ResolveEnum((keys + [key])[j1], types, parse) != ResolveEnum((keys + [key])[j2], types, parse)
  {
    var keys' := keys + [key];
    forall j1, j2 | 0 <= j1 < j2 < |keys'|
      ensures ResolveEnum(keys'[j1], types, parse) != ResolveEnum(keys'[j2], types, parse)
    {
      assert keys'[j1] == keys[j1];
      if j2 < |keys| {
        assert keys'[j2] == keys[j2];
      }
    }
  }

  /** LazyInitialization: a null (None) field is set to what initialization returns;
      a set field is kept and initialization is not used. The field ends up holding
      the returned value, so a second call returns it again. */
  method LazyInitialization<T>(backingField: Option<T>, initialization: () -> Option<T>)
    returns (field: Option<T>, value: Option<T>)
    ensures field == value
    ensures backingField.Some? ==> value == backingField
    ensures backingField.None? ==> value == initialization()
  {
    if backingField.None? {
      field := initialization();
    } else {
      field := backingField;
    }
    value := field;
  }
}
