/** The `add_attr` template filter's attribute string: "key:value" pairs
    separated by commas, read into a map of widget attributes. */
module DictHelpers {
  import opened Basics
  import opened Text

  type Attrs = map<string, string>

  /** The message of the unpacking error a piece with two or more colons
      raises. */
  const UNPACK_ERROR: string := "ValueError: too many values to unpack (expected 2)"

  /** What one comma-separated piece is to the loop: without a colon it is
      skipped; with one colon it is a key and a value; with more it cannot be
      unpacked into two names. */
  datatype Piece = Plain | Pair(key: string, value: string) | Malformed

  /** `if ':' in d: key, val = d.split(':')`, with both halves stripped. */
  function PieceOf(d: string): (p: Piece)
    ensures p.Plain? <==> Occurrences(d, ':') == 0
    ensures p.Pair? <==> Occurrences(d, ':') == 1
    ensures p.Malformed? <==> Occurrences(d, ':') >= 2
    ensures p.Pair? ==> Trimmed(p.key) && Trimmed(p.value)
  {
    OccurrencesZero(d, ':');
    SplitCount(d, ':');
    if ':' in d then
      var parts := Split(d, ':');
      if |parts| != 2 then Malformed else Pair(Strip(parts[0]), Strip(parts[1]))
    else Plain
  }

  /** A pair's key is the stripped text before its one colon and its value
      the stripped text after it. */
  lemma PairAroundColon(d: string)
    requires PieceOf(d).Pair?
    ensures var parts := Split(d, ':');
      && |parts| == 2 && d == parts[0] + [':'] + parts[1] && ':' !in parts[0] && ':' !in parts[1]
      && PieceOf(d).key == Strip(parts[0]) && PieceOf(d).value == Strip(parts[1])
  {
    JoinSplit(d, ':');
    var parts := Split(d, ':');
    assert Join(parts[1..], ':') == parts[1];
  }

  /** Each piece of the css string, classified. */
  function Pieces(ds: seq<string>): (ps: seq<Piece>)
    ensures |ps| == |ds|
    ensures forall i | 0 <= i < |ds| :: ps[i] == PieceOf(ds[i])
  {
    if ds == [] then [] else Pieces(ds[..|ds| - 1]) + [PieceOf(ds[|ds| - 1])]
  }

  /** The pieces read left to right: a plain piece is skipped, a pair sets its
      key to its value, and a malformed piece ends the reading with the
      unpacking error. */
  function AttrsOf(ps: seq<Piece>): Result<Attrs, string> {
    if ps == [] then Ok(map[])
    else
      match AttrsOf(ps[..|ps| - 1])
      case Err(e) => Err(e)
      case Ok(m) =>
        match ps[|ps| - 1]
        case Malformed => Err(UNPACK_ERROR)
        case Pair(k, v) => Ok(m[k := v])
        case Plain => Ok(m)
  }

  /** The attribute map of a css string. */
  function AttrsOfCss(css: string): Result<Attrs, string> {
    AttrsOf(Pieces(Split(css, ',')))
  }

  /** `add_attr`'s map-building loop. */
  method AddAttr(css: string) returns (r: Result<Attrs, string>)
    ensures r == AttrsOfCss(css)
  {
    var attrs: Attrs := map[];
    var definition := Split(css, ',');
    ghost var ps := Pieces(definition);
    for i := 0 to |definition|
      invariant AttrsOf(ps[..i]) == Ok(attrs)
    {
      assert ps[..i + 1][..i] == ps[..i];
      var d := definition[i];
      if ':' in d {
        var parts := Split(d, ':');
        if |parts| != 2 {
          AttrsOfStopsAtError(ps, i + 1);
          return Err(UNPACK_ERROR);
        }
        attrs := attrs[Strip(parts[0]) := Strip(parts[1])];
      }
    }
    assert ps[..|ps|] == ps;
    return Ok(attrs);
  }

  /** Once a malformed piece has been read, the rest cannot undo the error. */
  lemma {:induction false} AttrsOfStopsAtError(ps: seq<Piece>, n: nat)
    requires n <= |ps|
    requires AttrsOf(ps[..n]) == Err(UNPACK_ERROR)
    ensures AttrsOf(ps) == Err(UNPACK_ERROR)
    decreases |ps| - n
  {
    if n < |ps| {
      assert ps[..n + 1][..n] == ps[..n];
      AttrsOfStopsAtError(ps, n + 1);
    } else {
      assert ps[..n] == ps;
    }
  }

  /** The reading fails exactly when some piece is malformed, and then with
      the unpacking error. */
  lemma {:induction false} AttrsOfFailsIffMalformed(ps: seq<Piece>)
    ensures AttrsOf(ps).Err? <==> exists i | 0 <= i < |ps| :: ps[i].Malformed?
    ensures AttrsOf(ps).Err? ==> AttrsOf(ps).error == UNPACK_ERROR
  {
    if ps != [] {
      var init := ps[..|ps| - 1];
      AttrsOfFailsIffMalformed(init);
      if exists i | 0 <= i < |init| :: init[i].Malformed? {
        var i :| 0 <= i < |init| && init[i].Malformed?;
        assert ps[i] == init[i];
      }
      if exists i | 0 <= i < |ps| :: ps[i].Malformed? {
        var i :| 0 <= i < |ps| && ps[i].Malformed?;
        if i < |init| {
          assert init[i] == ps[i];
        }
      }
    }
  }

  /** A css string fails to be read exactly when one of its comma-separated
      pieces holds two or more colons. */
  lemma AttrsOfCssFailsIff(css: string)
    ensures AttrsOfCss(css).Err? <==>
              exists i | 0 <= i < |Split(css, ',')| :: Occurrences(Split(css, ',')[i], ':') >= 2
    ensures AttrsOfCss(css).Err? ==> AttrsOfCss(css).error == UNPACK_ERROR
  {
    var ds := Split(css, ',');
    var ps := Pieces(ds);
    AttrsOfFailsIffMalformed(ps);
    if exists i | 0 <= i < |ps| :: ps[i].Malformed? {
      var i :| 0 <= i < |ps| && ps[i].Malformed?;
      assert Occurrences(ds[i], ':') >= 2;
    }
    if exists i | 0 <= i < |ds| :: Occurrences(ds[i], ':') >= 2 {
      var i :| 0 <= i < |ds| && Occurrences(ds[i], ':') >= 2;
      assert ps[i].Malformed?;
    }
  }

  /** The last piece of a successful reading either sets one key or adds
      nothing to the reading of the pieces before it. */
  lemma AttrsOfLast(ps: seq<Piece>)
    requires ps != [] && AttrsOf(ps).Ok?
    ensures var init := ps[..|ps| - 1];
      var p := ps[|ps| - 1];
      && AttrsOf(init).Ok?
      && !p.Malformed?
      && (p.Pair? ==> AttrsOf(ps).value == AttrsOf(init).value[p.key := p.value])
      && (p.Plain? ==> AttrsOf(ps).value == AttrsOf(init).value)
  {
  }

  /** A successful reading holds exactly the keys of the pairs. */
  lemma AttrsOfKeys(ps: seq<Piece>)
    requires AttrsOf(ps).Ok?
    ensures forall i | 0 <= i < |ps| && ps[i].Pair? :: ps[i].key in AttrsOf(ps).value
    ensures forall k | k in AttrsOf(ps).value :: exists i | 0 <= i < |ps| :: ps[i].Pair? && ps[i].key == k
  {
    PairKeysPresent(ps);
    KeysComeFromPairs(ps);
  }

  lemma {:induction false} PairKeysPresent(ps: seq<Piece>)
    requires AttrsOf(ps).Ok?
    ensures forall i | 0 <= i < |ps| && ps[i].Pair? :: ps[i].key in AttrsOf(ps).value
  {
    if ps != [] {
      var init := ps[..|ps| - 1];
      AttrsOfLast(ps);
      PairKeysPresent(init);
      forall i | 0 <= i < |ps| && ps[i].Pair? ensures ps[i].key in AttrsOf(ps).value {
        if i < |init| {
          assert init[i] == ps[i];
        }
      }
    }
  }

  lemma {:induction false} KeysComeFromPairs(ps: seq<Piece>)
    requires AttrsOf(ps).Ok?
    ensures forall k | k in AttrsOf(ps).value :: exists i | 0 <= i < |ps| :: ps[i].Pair? && ps[i].key == k
  {
    if ps != [] {
      var init := ps[..|ps| - 1];
      var last := |ps| - 1;
      AttrsOfLast(ps);
      KeysComeFromPairs(init);
      var m := AttrsOf(init).value;
      forall k | k in AttrsOf(ps).value ensures exists i | 0 <= i < |ps| :: ps[i].Pair? && ps[i].key == k {
        if k in m {
          var i :| 0 <= i < |init| && init[i].Pair? && init[i].key == k;
          assert init[i] == ps[i];
        } else {
          assert ps[last].Pair? && ps[last].key == k;
        }
      }
    }
  }

  /** Each key holds the value of the last pair with that key: a later pair
      overwrites an earlier one. */
  lemma {:induction false} AttrsOfLastPairWins(ps: seq<Piece>, i: nat)
    requires AttrsOf(ps).Ok?
    requires i < |ps| && ps[i].Pair?
    requires forall j | i < j < |ps| && ps[j].Pair? :: ps[j].key != ps[i].key
    ensures ps[i].key in AttrsOf(ps).value
    ensures AttrsOf(ps).value[ps[i].key] == ps[i].value
  {
    var init := ps[..|ps| - 1];
    AttrsOfLast(ps);
    if i < |ps| - 1 {
      assert init[i] == ps[i];
      forall j | i < j < |init| && init[j].Pair? ensures init[j].key != init[i].key {
        assert init[j] == ps[j];
      }
      AttrsOfLastPairWins(init, i);
    }
  }

  /** Keys are counted once however often they repeat, so there are never
      more entries than pieces. */
  lemma {:induction false} AttrsOfSize(ps: seq<Piece>)
    requires AttrsOf(ps).Ok?
    ensures |AttrsOf(ps).value| <= |ps|
  {
    if ps != [] {
      var init := ps[..|ps| - 1];
      var p := ps[|ps| - 1];
      AttrsOfLast(ps);
      AttrsOfSize(init);
      if p.Pair? {
        MapUpdateSize(AttrsOf(init).value, p.key, p.value);
      }
    }
  }

  lemma MapUpdateSize<K, V>(m: map<K, V>, k: K, v: V)
    ensures |m[k := v]| <= |m| + 1
  {
    if k in m {
      assert m[k := v].Keys == m.Keys;
    } else {
      assert m[k := v].Keys == m.Keys + {k};
    }
  }

  /** Every pair of the pieces holds a stripped key and value. */
  predicate PairsTrimmed(ps: seq<Piece>) {
    forall i | 0 <= i < |ps| && ps[i].Pair? :: Trimmed(ps[i].key) && Trimmed(ps[i].value)
  }

  /** Keys and values are stored as the pairs give them: when the pairs are
      stripped, so is every entry. */
  lemma {:induction false} AttrsOfStripped(ps: seq<Piece>)
    requires AttrsOf(ps).Ok? && PairsTrimmed(ps)
    ensures forall k | k in AttrsOf(ps).value :: Trimmed(k) && Trimmed(AttrsOf(ps).value[k])
  {
    if ps != [] {
      var init := ps[..|ps| - 1];
      assert PairsTrimmed(init) by {
        forall i | 0 <= i < |init| && init[i].Pair? ensures Trimmed(init[i].key) && Trimmed(init[i].value) {
          assert init[i] == ps[i];
        }
      }
      AttrsOfLast(ps);
      AttrsOfStripped(init);
    }
  }

  /** No key or value of a css string's map starts or ends with
      whitespace. */
  lemma AttrsOfCssStripped(css: string)
    requires AttrsOfCss(css).Ok?
    ensures forall k | k in AttrsOfCss(css).value :: Trimmed(k) && Trimmed(AttrsOfCss(css).value[k])
  {
    AttrsOfStripped(Pieces(Split(css, ',')));
  }

  /** An empty css string, or one without any colon, gives no attributes. */
  lemma NoColonNoAttrs(css: string)
    requires ':' !in css
    ensures AttrsOfCss(css) == Ok(map[])
  {
    var ds := Split(css, ',');
    NoColonInPieces(css);
    var ps := Pieces(ds);
    forall i | 0 <= i < |ps| ensures ps[i].Plain? {
      OccurrencesZero(ds[i], ':');
    }
    NoPairsNoAttrs(ps);
  }

  lemma {:induction false} NoColonInPieces(css: string)
    requires ':' !in css
    ensures forall k | 0 <= k < |Split(css, ',')| :: ':' !in Split(css, ',')[k]
  {
    JoinSplit(css, ',');
    var pieces := Split(css, ',');
    forall k | 0 <= k < |pieces| ensures ':' !in pieces[k] {
      PieceInJoin(pieces, ',', k);
    }
  }

  /** Every piece's characters occur in the joined string. */
  lemma {:induction false} PieceInJoin(parts: seq<string>, sep: char, k: nat)
    requires |parts| >= 1 && k < |parts|
    ensures forall c | c in parts[k] :: c in Join(parts, sep)
  {
    if |parts| > 1 {
      if k > 0 {
        PieceInJoin(parts[1..], sep, k - 1);
      }
    }
  }

  lemma {:induction false} NoPairsNoAttrs(ps: seq<Piece>)
    requires forall k | 0 <= k < |ps| :: ps[k].Plain?
    ensures AttrsOf(ps) == Ok(map[])
  {
    if ps != [] {
      NoPairsNoAttrs(ps[..|ps| - 1]);
    }
  }
}
