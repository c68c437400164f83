/**
 * src/conversion.rs: polar and Cartesian coordinate triples, their in-place component-wise
 * updates, the conversions between them and the space-separated text form of polar triples
 * and of sequences of them.
 *
 * `f32` becomes `real`. The library functions `sqrt`, `atan2`, `sin` and `cos` are values of a
 * `MathLib` record that callers pass in; `atan2` answers `None` where the float result would be
 * NaN. Text is a sequence of `Glyph`s in which a number formatted with `{:.16}` is a single
 * opaque `Number` glyph, so that `parse::<f32>` of a formatted number gives the number back.
 */
module Coordinates {
  import opened Wrappers
  import opened Obj

  /** The floating point library functions the conversions call. */
  datatype MathLib = MathLib(sqrt: real -> real, atan2: (real, real) -> Option<real>, sin: real -> real, cos: real -> real)

  /** `sqrt` gives the non-negative square root of every non-negative argument. */
  ghost predicate SoundSqrt(m: MathLib)
  {
    forall t: real :: 0.0 <= t ==> 0.0 <= m.sqrt(t) && Square(m.sqrt(t)) == t
  }

  /** `PolarCoords { r, long, lat }`; its `Default` is all zeros. */
  datatype Polar = Polar(r: real, long: real, lat: real)
  {
    function Minus(o: Polar): Polar
    {
      Polar(r - o.r, long - o.long, lat - o.lat)
    }
  }

  const PolarZero: Polar := Polar(0.0, 0.0, 0.0)

  /** `CartesianCoords { x, y, z }`. */
  datatype Cartesian = Cartesian(x: real, y: real, z: real)
  {
    function Plus(o: Cartesian): Cartesian
    {
      Cartesian(x + o.x, y + o.y, z + o.z)
    }

    function Minus(o: Cartesian): Cartesian
    {
      Cartesian(x - o.x, y - o.y, z - o.z)
    }
  }

  const Origin: Cartesian := Cartesian(0.0, 0.0, 0.0)

  /** Subtracting a triple undoes adding it, and adding undoes subtracting. */
  lemma MinusUndoesPlus(a: Cartesian, b: Cartesian)
    ensures a.Plus(b).Minus(b) == a
    ensures a.Minus(b).Plus(b) == a
  {
  }

  /** A polar triple that the source updates in place. */
  class PolarCoords {
    var r: real
    var long: real
    var lat: real

    function Value(): Polar
      reads this
    {
      Polar(r, long, lat)
    }

    constructor (p: Polar)
      ensures Value() == p
    {
      r, long, lat := p.r, p.long, p.lat;
    }

    /** `sum_with`: adds `other` component by component. */
    method SumWith(other: Polar)
      modifies this
      ensures r == old(r) + other.r && long == old(long) + other.long && lat == old(lat) + other.lat
    {
      r := r + other.r;
      long := long + other.long;
      lat := lat + other.lat;
    }

    /**
     * The polar `subtract_with` that `path_to_polar_offs` calls: subtracts `other` component by
     * component, like its Cartesian namesake.
     */
    method SubtractWith(other: Polar)
      modifies this
      ensures Value() == old(Value()).Minus(other)
    {
      r := r - other.r;
      long := long - other.long;
      lat := lat - other.lat;
    }
  }

  /** A Cartesian triple that the source updates in place. */
  class CartesianCoords {
    var x: real
    var y: real
    var z: real

    function Value(): Cartesian
      reads this
    {
      Cartesian(x, y, z)
    }

    constructor (c: Cartesian)
      ensures Value() == c
    {
      x, y, z := c.x, c.y, c.z;
    }

    /** `sum_with`. */
    method SumWith(other: Cartesian)
      modifies this
      ensures Value() == old(Value()).Plus(other)
    {
      x := x + other.x;
      y := y + other.y;
      z := z + other.z;
    }

    /** `subtract_with`. */
    method SubtractWith(other: Cartesian)
      modifies this
      ensures Value() == old(Value()).Minus(other)
    {
      x := x - other.x;
      y := y - other.y;
      z := z - other.z;
    }
  }

  /** A product, kept as a term of its own so that the solver reasons about squares soundly. */
  function Times(a: real, b: real): real
  {
    a * b
  }

  /** `powi(2)`. */
  function Square(v: real): real
  {
    Times(v, v)
  }

  /** The sum of the squares of the coordinates of `c`. */
  function NormSquared(c: Cartesian): real
  {
    Square(c.x) + Square(c.y) + Square(c.z)
  }

  /**
   * `From<&CartesianCoords> for PolarCoords`. A NaN longitude becomes 0; so does the latitude
   * `z / r` at radius 0, where the float quotient is 0 / 0.
   */
  function ToPolar(m: MathLib, c: Cartesian): Polar
  {
    var r := m.sqrt(NormSquared(c));
    var long := match m.atan2(c.y, c.x) case None => 0.0 case Some(a) => a;
    var lat := if r == 0.0 then 0.0 else c.z / r;
    Polar(r, long, lat)
  }

  lemma TimesPositive(a: real, b: real)
    requires 0.0 < a && 0.0 < b
    ensures 0.0 < Times(a, b)
  {
  }

  lemma TimesMonotone(a: real, b: real, c: real)
    requires a < b && 0.0 < c
    ensures Times(a, c) < Times(b, c) && Times(c, a) < Times(c, b)
  {
    TimesPositive(b - a, c);
    assert Times(b - a, c) == Times(b, c) - Times(a, c);
  }

  lemma SquarePositive(v: real)
    ensures 0.0 <= Square(v)
    ensures v != 0.0 ==> 0.0 < Square(v)
  {
    if v > 0.0 {
      TimesPositive(v, v);
    } else if v < 0.0 {
      TimesPositive(-v, -v);
      assert Times(-v, -v) == Times(v, v);
    } else {
      assert Times(v, v) == Times(0.0, 0.0) == 0.0;
    }
  }

  /** A sum of squares is at least each of them, and zero only at the origin. */
  lemma NormSquaredFacts(c: Cartesian)
    ensures 0.0 <= Square(c.z) <= NormSquared(c)
    ensures NormSquared(c) == 0.0 <==> c == Origin
  {
    SquarePositive(c.x);
    SquarePositive(c.y);
    SquarePositive(c.z);
    if c == Origin {
      assert Times(0.0, 0.0) == 0.0;
    }
  }

  lemma SquareStrict(a: real, b: real)
    requires 0.0 < b < a
    ensures Square(b) < Square(a)
  {
    TimesMonotone(b, a, b);
    TimesMonotone(b, a, a);
  }

  /** A real whose square is at most the square of a positive `r` lies within `[-r, r]`. */
  lemma SquareBound(z: real, r: real)
    requires 0.0 < r && Square(z) <= Square(r)
    ensures -r <= z <= r
  {
    if z > r {
      SquareStrict(z, r);
      assert false;
    }
    if z < -r {
      SquareStrict(-z, r);
      assert false;
    }
  }

  /** A quotient by `r` of a value within `[-r, r]` lies within `[-1, 1]`. */
  lemma LatitudeBound(z: real, r: real)
    requires 0.0 < r && -r <= z <= r
    ensures -1.0 <= z / r <= 1.0
  {
    var q := z / r;
    assert Times(q, r) == z;
    if q > 1.0 {
      TimesMonotone(1.0, q, r);
      assert false;
    }
    if q < -1.0 {
      TimesMonotone(q, -1.0, r);
      assert false;
    }
  }

  /**
   * With a correct `sqrt`, the radius is the Euclidean norm, zero exactly at the origin, where
   * both angles fall back to 0 instead of NaN; elsewhere the latitude is `z / r`, within
   * `[-1, 1]`.
   */
  lemma ToPolarFacts(m: MathLib, c: Cartesian)
    requires SoundSqrt(m)
    ensures var p := ToPolar(m, c);
            && 0.0 <= p.r && Square(p.r) == NormSquared(c)
            && (p.r == 0.0 <==> c == Origin)
            && (c == Origin ==> p.lat == 0.0 && (m.atan2(0.0, 0.0).None? ==> p.long == 0.0))
            && (p.r != 0.0 ==> Times(p.lat, p.r) == c.z && -1.0 <= p.lat <= 1.0)
            && (m.atan2(c.y, c.x).Some? ==> p.long == m.atan2(c.y, c.x).value)
  {
    var p := ToPolar(m, c);
    NormSquaredFacts(c);
    var r, lat := p.r, p.lat;
    assert 0.0 <= r && Square(r) == NormSquared(c);
    SquarePositive(r);
    if r != 0.0 {
      assert lat == c.z / r;
      assert Times(lat, r) == c.z;
      SquareBound(c.z, r);
      LatitudeBound(c.z, r);
    }
  }

  /** `From<&PolarCoords> for CartesianCoords`, with the source's formulas. */
  function ToCartesian(m: MathLib, p: Polar): Cartesian
  {
    var rs := Times(p.r, m.sin(p.long));
    Cartesian(Times(rs, m.cos(p.lat)), Times(rs, m.sin(p.lat)), rs)
  }

  /**
   * The height `z` depends on the radius and longitude only, never on the latitude; radius 0
   * gives the origin.
   */
  lemma ToCartesianFacts(m: MathLib, p: Polar, lat: real)
    ensures ToCartesian(m, p).z == ToCartesian(m, p.(lat := lat)).z
    ensures p.r == 0.0 ==> ToCartesian(m, p) == Origin
  {
    if p.r == 0.0 {
      var rs := Times(p.r, m.sin(p.long));
      assert rs == 0.0;
      assert Times(rs, m.cos(p.lat)) == 0.0 && Times(rs, m.sin(p.lat)) == 0.0;
    }
  }

  /**
   * The two conversions are not inverse to each other: every point of the `z` axis other than
   * the origin comes back at height 0, whenever `sin 0 = 0` and `atan2(0, 0)` is 0 or NaN.
   */
  lemma AxisPointsLoseHeight(m: MathLib, c: Cartesian)
    requires m.sin(0.0) == 0.0
    requires m.atan2(0.0, 0.0) == None || m.atan2(0.0, 0.0) == Some(0.0)
    requires c.x == 0.0 && c.y == 0.0 && c.z != 0.0
    ensures ToCartesian(m, ToPolar(m, c)).z == 0.0
    ensures ToCartesian(m, ToPolar(m, c)) != c
  {
    var p := ToPolar(m, c);
    assert p.long == 0.0;
    var rs := Times(p.r, m.sin(p.long));
    assert rs == Times(p.r, 0.0) == 0.0;
  }

  /** `From<[f32; 3]> for CartesianCoords`. */
  function FromArray(s: F3): Cartesian
  {
    Cartesian(s.0, s.1, s.2)
  }

  /** `From<CartesianCoords> for [f32; 3]`. */
  function ToArray(c: Cartesian): F3
  {
    (c.x, c.y, c.z)
  }

  /** The array conversions are mutual inverses and keep the field order x, y, z. */
  lemma ArrayRoundTrip(s: F3, c: Cartesian)
    ensures ToArray(FromArray(s)) == s && FromArray(ToArray(c)) == c
    ensures FromArray(s).x == s.0 && FromArray(s).y == s.1 && FromArray(s).z == s.2
  {
  }

  // ---------------------------------------------------------------------------------------
  // Text

  /** A character of text; `Number(v)` is the whole `{:.16}` rendering of `v`. */
  datatype Glyph = Space | Number(value: real) | Letter(c: char)

  type Text = seq<Glyph>

  /** `str.split(' ')`: the pieces between single spaces, always at least one. */
  function Split(s: Text): (pieces: seq<Text>)
    ensures |pieces| >= 1
  {
    if s == [] then [[]]
    else
      var rest := Split(s[1..]);
      if s[0] == Space then [[]] + rest else [[s[0]] + rest[0]] + rest[1..]
  }

  /** `join(" ")`. */
  function Join(pieces: seq<Text>): Text
  {
    if pieces == [] then []
    else if |pieces| == 1 then pieces[0]
    else pieces[0] + [Space] + Join(pieces[1..])
  }

  /** No piece of a split holds a space. */
  lemma {:induction false} SplitPiecesSpaceFree(s: Text)
    ensures forall p | p in Split(s) :: Space !in p
  {
    if s != [] {
      SplitPiecesSpaceFree(s[1..]);
      var rest := Split(s[1..]);
      if s[0] != Space {
        assert rest[0] in rest;
        forall p | p in Split(s) ensures Space !in p {
          if p != [s[0]] + rest[0] {
            assert p in rest[1..];
          }
        }
      }
    }
  }

  /** Splitting text that starts with a space-free piece and a space. */
  lemma {:induction false} SplitAfterPiece(a: Text, rest: Text)
    requires Space !in a
    ensures Split(a) == [a]
    ensures Split(a + [Space] + rest) == [a] + Split(rest)
  {
    if a != [] {
      assert (a + [Space] + rest)[1..] == a[1..] + [Space] + rest;
      SplitAfterPiece(a[1..], rest);
      assert [a[0]] + a[1..] == a;
    } else {
      assert a + [Space] + rest == [Space] + rest;
    }
  }

  /** Joining space-free pieces and splitting again gives the pieces back. */
  lemma {:induction false} SplitJoin(pieces: seq<Text>)
    requires |pieces| >= 1 && forall p | p in pieces :: Space !in p
    ensures Split(Join(pieces)) == pieces
  {
    if |pieces| == 1 {
      SplitAfterPiece(pieces[0], []);
    } else {
      assert pieces[0] in pieces;
      assert forall p | p in pieces[1..] :: p in pieces;
      SplitJoin(pieces[1..]);
      SplitAfterPiece(pieces[0], Join(pieces[1..]));
    }
  }

  /** Joining after an empty first piece puts a space in front. */
  lemma JoinAfterEmpty(rest: seq<Text>)
    requires |rest| >= 1
    ensures Join([[]] + rest) == [Space] + Join(rest)
  {
    assert ([[]] + rest)[1..] == rest;
  }

  /** Joining a first piece and a non-empty rest puts a space between them. */
  lemma JoinCons(head: Text, tail: seq<Text>)
    requires tail != []
    ensures Join([head] + tail) == head + [Space] + Join(tail)
  {
    assert ([head] + tail)[1..] == tail;
  }

  /** Joining after growing the first piece by one glyph puts that glyph in front. */
  lemma JoinAfterGlyph(x: Glyph, head: Text, tail: seq<Text>)
    ensures Join([[x] + head] + tail) == [x] + Join([head] + tail)
  {
    if tail != [] {
      JoinCons([x] + head, tail);
      JoinCons(head, tail);
      assert [x] + head + [Space] + Join(tail) == [x] + (head + [Space] + Join(tail));
    }
  }

  /** Splitting text and joining the pieces again gives the text back. */
  lemma {:induction false} JoinSplit(s: Text)
    ensures Join(Split(s)) == s
  {
    if s != [] {
      JoinSplit(s[1..]);
      var rest := Split(s[1..]);
      if s[0] == Space {
        JoinAfterEmpty(rest);
      } else {
        assert rest == [rest[0]] + rest[1..];
        JoinAfterGlyph(s[0], rest[0], rest[1..]);
      }
      assert s == [s[0]] + s[1..];
    }
  }

  /** `format!("{:.16}", v)`. */
  function Format(v: real): Text
  {
    [Number(v)]
  }

  /** `parse::<f32>()`: only the rendering of a number parses. */
  function ParseNumber(t: Text): (r: Option<real>)
    ensures r.Some? <==> exists v :: t == Format(v)
    ensures forall v :: t == Format(v) ==> r == Some(v)
  {
    if |t| == 1 && t[0].Number? then
      assert t == Format(t[0].value);
      Some(t[0].value)
    else None
  }

  /** The three fields of a polar triple, in the order `r`, `long`, `lat`. */
  function Fields(p: Polar): seq<Text>
  {
    [Format(p.r), Format(p.long), Format(p.lat)]
  }

  /** `PolarCoords::to_string`. */
  function PolarText(p: Polar): Text
  {
    Join(Fields(p))
  }

  /** Parses the first three of `pieces` as `r`, `long` and `lat`; `None` where the source panics. */
  function ParseTriple(pieces: seq<Text>): Option<Polar>
  {
    if |pieces| < 3 then None
    else
      match (ParseNumber(pieces[0]), ParseNumber(pieces[1]), ParseNumber(pieces[2]))
      case (Some(r), Some(long), Some(lat)) => Some(Polar(r, long, lat))
      case _ => None
  }

  /**
   * `From<&String> for PolarCoords`: the first three space-separated fields; `None` where the
   * source panics (fewer than three fields, or one that is not a number).
   */
  function ParsePolar(s: Text): Option<Polar>
  {
    ParseTriple(Split(s))
  }

  /** A polar triple's text has exactly three fields, which parse back to the triple. */
  lemma PolarTextRoundTrip(p: Polar)
    ensures Split(PolarText(p)) == Fields(p) && |Split(PolarText(p))| == 3
    ensures ParsePolar(PolarText(p)) == Some(p)
  {
    SplitJoin(Fields(p));
  }

  /** Parsing reads the first three fields and ignores whatever follows them. */
  lemma ParsePolarIgnoresRest(p: Polar, rest: Text)
    ensures ParsePolar(PolarText(p) + [Space] + rest) == Some(p)
  {
    var a, b, c := Format(p.r), Format(p.long), Format(p.lat);
    assert Join([c]) == c;
    assert Join([b, c]) == b + [Space] + c by { assert [b, c][1..] == [c]; }
    assert PolarText(p) == a + [Space] + (b + [Space] + c) by { assert Fields(p)[1..] == [b, c]; }
    assert PolarText(p) + [Space] + rest == a + [Space] + (b + [Space] + (c + [Space] + rest));
    SplitAfterPiece(c, rest);
    SplitAfterPiece(b, c + [Space] + rest);
    SplitAfterPiece(a, b + [Space] + (c + [Space] + rest));
  }

  /**
   * Parsing fails exactly when there are fewer than three fields or one of the first three is
   * not a number; otherwise it gives the three numbers in order.
   */
  lemma ParsePolarFails(s: Text)
    ensures |Split(s)| < 3 ==> ParsePolar(s) == None
    ensures ParseNumber(Split(s)[0]) == None ==> ParsePolar(s) == None
    ensures ParsePolar(s).None? <==>
              || |Split(s)| < 3
              || (exists j | 0 <= j < 3 :: ParseNumber(Split(s)[j]).None?)
    ensures ParsePolar(s).Some? ==>
              ParsePolar(s).value.r == ParseNumber(Split(s)[0]).value
              && ParsePolar(s).value.long == ParseNumber(Split(s)[1]).value
              && ParsePolar(s).value.lat == ParseNumber(Split(s)[2]).value
  {
    var f := Split(s);
    if |f| >= 3 && ParseNumber(f[0]).Some? && ParseNumber(f[1]).Some? && ParseNumber(f[2]).Some? {
      assert forall j | 0 <= j < 3 :: ParseNumber(f[j]).Some? by {
        forall j | 0 <= j < 3 ensures ParseNumber(f[j]).Some? {
          if j == 0 {} else if j == 1 {} else {}
        }
      }
    }
  }

  /** `PolarCoordSeq { seq }`; collecting an iterator of triples (`FromIterator`) builds it directly. */
  datatype PolarCoordSeq = PolarCoordSeq(coords: seq<Polar>)

  /** The fields of a sequence of triples: three per triple, in order. */
  function SeqFields(cs: seq<Polar>): seq<Text>
  {
    if cs == [] then [] else Fields(cs[0]) + SeqFields(cs[1..])
  }

  lemma {:induction false} SeqFieldsLength(cs: seq<Polar>)
    ensures |SeqFields(cs)| == 3 * |cs|
  {
    if cs != [] {
      SeqFieldsLength(cs[1..]);
    }
  }

  /** `PolarCoordSeq::to_string`: the triples' texts joined by spaces. */
  function SeqText(s: PolarCoordSeq): Text
  {
    Join(PolarTexts(s.coords))
  }

  /** `iter().map(ToString::to_string)`. */
  function PolarTexts(cs: seq<Polar>): seq<Text>
  {
    if cs == [] then [] else [PolarText(cs[0])] + PolarTexts(cs[1..])
  }

  /** Joining the triples' texts is joining all their fields. */
  lemma {:induction false} SeqTextIsJoinedFields(cs: seq<Polar>)
    requires cs != []
    ensures SeqText(PolarCoordSeq(cs)) == Join(SeqFields(cs))
  {
    var texts := PolarTexts(cs);
    var p := cs[0];
    var a, b, c := Format(p.r), Format(p.long), Format(p.lat);
    if |cs| == 1 {
      assert cs[1..] == [];
      assert PolarTexts(cs) == [PolarText(p)];
      assert SeqText(PolarCoordSeq(cs)) == PolarText(p);
      assert SeqFields(cs) == Fields(p) + [];
      assert Fields(p) + [] == Fields(p);
    } else {
      SeqTextIsJoinedFields(cs[1..]);
      var rest := PolarTexts(cs[1..]);
      assert texts[1..] == rest;
      SeqFieldsLength(cs[1..]);
      var tail := SeqFields(cs[1..]);
      assert |tail| >= 3;
      assert Join(texts) == texts[0] + [Space] + Join(rest);
      assert texts[0] == a + [Space] + (b + [Space] + c) by {
        assert Join([c]) == c;
        assert Join([b, c]) == b + [Space] + c by { assert [b, c][1..] == [c]; }
        assert Fields(p)[1..] == [b, c];
      }
      assert SeqFields(cs) == [a, b, c] + tail;
      assert Join([a, b, c] + tail) == a + [Space] + Join([b, c] + tail) by {
        assert ([a, b, c] + tail)[1..] == [b, c] + tail;
      }
      assert Join([b, c] + tail) == b + [Space] + Join([c] + tail) by {
        assert ([b, c] + tail)[1..] == [c] + tail;
      }
      assert Join([c] + tail) == c + [Space] + Join(tail) by {
        assert ([c] + tail)[1..] == tail;
      }
    }
  }

  /** The text of `n` triples has `3 n` fields, the triples' fields in order; none for `n = 0`. */
  lemma SeqTextFields(cs: seq<Polar>)
    ensures cs != [] ==> Split(SeqText(PolarCoordSeq(cs))) == SeqFields(cs)
    ensures cs != [] ==> |Split(SeqText(PolarCoordSeq(cs)))| == 3 * |cs|
    ensures cs == [] ==> SeqText(PolarCoordSeq(cs)) == []
  {
    SeqFieldsLength(cs);
    if cs != [] {
      SeqTextIsJoinedFields(cs);
      SeqFieldsSpaceFree(cs);
      SplitJoin(SeqFields(cs));
    }
  }

  lemma {:induction false} SeqFieldsSpaceFree(cs: seq<Polar>)
    ensures forall p | p in SeqFields(cs) :: Space !in p
  {
    if cs != [] {
      SeqFieldsSpaceFree(cs[1..]);
    }
  }

  /**
   * `chunks(3)` over the fields, each chunk parsed as a triple; `None` where the source panics:
   * a field that is not a number, or a trailing chunk of fewer than three fields.
   */
  function ParseChunks(fields: seq<Text>): Option<seq<Polar>>
  {
    if fields == [] then Some([])
    else
      match (ParseTriple(fields), ParseChunks(fields[if |fields| < 3 then |fields| else 3..]))
      case (Some(p), Some(ps)) => Some([p] + ps)
      case _ => None
  }

  /** `prefix` followed by the outcome `rest`. */
  function Prepend(prefix: seq<Polar>, rest: Option<seq<Polar>>): Option<seq<Polar>>
  {
    match rest
    case None => None
    case Some(ps) => Some(prefix + ps)
  }

  /**
   * `From<&String> for PolarCoordSeq`: splits at spaces and parses the fields three at a time,
   * pushing one triple per chunk. `None` where the source panics.
   */
  method ParseSeq(s: Text) returns (res: Option<PolarCoordSeq>)
    ensures res.Some? <==> ParseChunks(Split(s)).Some?
    ensures res.Some? ==> res.value.coords == ParseChunks(Split(s)).value
  {
    var fields := Split(s);
    var items: seq<Polar> := [];
    var i := 0;
    assert fields[i..] == fields;
    assert ParseChunks(fields).Some? ==> [] + ParseChunks(fields).value == ParseChunks(fields).value;
    while i < |fields|
      invariant 0 <= i <= |fields|
      invariant ParseChunks(fields) == Prepend(items, ParseChunks(fields[i..]))
      decreases |fields| - i
    {
      var chunk := fields[i..];
      var p := ParseTriple(chunk);
      if p.None? {
        assert ParseChunks(chunk) == None;
        return None;
      }
      assert |chunk| >= 3 && chunk[3..] == fields[i + 3..];
      assert ParseChunks(chunk) == Prepend([p.value], ParseChunks(fields[i + 3..]));
      if ParseChunks(fields[i + 3..]).Some? {
        assert items + ([p.value] + ParseChunks(fields[i + 3..]).value)
            == (items + [p.value]) + ParseChunks(fields[i + 3..]).value;
      }
      items := items + [p.value];
      i := i + 3;
    }
    assert fields[i..] == [];
    return Some(PolarCoordSeq(items));
  }

  /** The fields of a sequence of triples parse back, chunk by chunk, to the triples. */
  lemma {:induction false} ParseChunksSeqFields(cs: seq<Polar>)
    ensures ParseChunks(SeqFields(cs)) == Some(cs)
  {
    if cs != [] {
      ParseChunksSeqFields(cs[1..]);
      var fs := SeqFields(cs);
      SeqFieldsLength(cs);
      assert fs[3..] == SeqFields(cs[1..]);
      assert fs[..3] == Fields(cs[0]);
      assert fs[0] == Format(cs[0].r) && fs[1] == Format(cs[0].long) && fs[2] == Format(cs[0].lat);
      assert ParseTriple(fs) == Some(cs[0]);
      assert ParseChunks(fs) == Prepend([cs[0]], ParseChunks(fs[3..]));
      assert [cs[0]] + cs[1..] == cs;
    }
  }

  /** Every non-empty sequence of triples survives a trip through its text. */
  lemma SeqTextRoundTrip(cs: seq<Polar>)
    requires cs != []
    ensures ParseChunks(Split(SeqText(PolarCoordSeq(cs)))) == Some(cs)
  {
    SeqTextFields(cs);
    ParseChunksSeqFields(cs);
  }

  /** The empty sequence prints as the empty string, which does not parse back. */
  lemma EmptySeqDoesNotParse()
    ensures SeqText(PolarCoordSeq([])) == []
    ensures ParseChunks(Split(SeqText(PolarCoordSeq([])))) == None
  {
    assert Split([]) == [[]];
  }

  /** A field count that is not a multiple of three makes parsing fail. */
  lemma {:induction false} PartialChunkFails(fields: seq<Text>)
    requires |fields| % 3 != 0
    ensures ParseChunks(fields) == None
    decreases |fields|
  {
    if |fields| >= 3 {
      PartialChunkFails(fields[3..]);
    }
  }
}
