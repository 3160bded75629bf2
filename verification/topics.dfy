/** Reading topics back out of a sheet cell, as both recommenders do:
    `[t.strip().lower() for t in cell.split(',') if t.strip()]`. */
module Topics {
  import opened Text

  /** `t` is what some non-blank piece strips and lowers to. */
  ghost predicate TopicOf(pieces: seq<string>, t: string) {
    exists j :: 0 <= j < |pieces| && Strip(pieces[j]) != "" && t == Lower(Strip(pieces[j]))
  }

  /** The kept pieces, stripped and lowered, in order: exactly the topics
      of the non-blank pieces, each non-empty, lowercase and trimmed. */
  function PieceTopics(pieces: seq<string>): (r: seq<string>)
    ensures |r| <= |pieces|
    ensures forall i :: 0 <= i < |r| ==> r[i] != [] && IsLower(r[i]) && IsTrimmed(r[i], IsSpace)
    ensures forall t :: t in r <==> TopicOf(pieces, t)
  {
    KeptFacts(pieces);
    Kept(pieces)
  }

  /** The comprehension itself, piece by piece. */
  function Kept(pieces: seq<string>): seq<string> {
    FlatMap(PieceTopic, pieces)
  }

  /** What one piece contributes: its stripped, lowered text unless blank. */
  function PieceTopic(piece: string): seq<string> {
    var t := Strip(piece);
    if t != "" then [Lower(t)] else []
  }

  /** `f` applied to each element, the results joined in order. */
  function FlatMap(f: string -> seq<string>, xs: seq<string>): seq<string> {
    if xs == [] then [] else f(xs[0]) + FlatMap(f, xs[1..])
  }

  lemma {:induction false} KeptFacts(pieces: seq<string>)
    ensures |Kept(pieces)| <= |pieces|
    ensures AllShaped(Kept(pieces))
    ensures forall t :: t in Kept(pieces) <==> TopicOf(pieces, t)
  {
    KeptClean(pieces);
    KeptMembers(pieces);
  }

  lemma {:induction false} KeptClean(pieces: seq<string>)
    ensures |Kept(pieces)| <= |pieces|
    ensures AllShaped(Kept(pieces))
  {
    if pieces != [] {
      KeptClean(pieces[1..]);
      PieceTopicClean(pieces[0]);
      ShapedConcat(PieceTopic(pieces[0]), Kept(pieces[1..]));
    }
  }

  /** Every element a topic as the comprehension keeps it. */
  predicate AllShaped(ts: seq<string>) {
    forall i :: 0 <= i < |ts| ==> ts[i] != [] && IsLower(ts[i]) && IsTrimmed(ts[i], IsSpace)
  }

  lemma {:induction false} ShapedConcat(a: seq<string>, b: seq<string>)
    requires AllShaped(a) && AllShaped(b)
    ensures AllShaped(a + b)
  {
    forall i | 0 <= i < |a + b| ensures (a + b)[i] != [] && IsLower((a + b)[i]) && IsTrimmed((a + b)[i], IsSpace) {
      if i >= |a| {
        assert (a + b)[i] == b[i - |a|];
      }
    }
  }

  lemma {:induction false} PieceTopicClean(piece: string)
    ensures |PieceTopic(piece)| <= 1
    ensures AllShaped(PieceTopic(piece))
  {
    LowerKeepsTrimmed(Strip(piece));
  }

  lemma {:induction false} KeptMembers(pieces: seq<string>)
    ensures forall t :: t in Kept(pieces) <==> TopicOf(pieces, t)
  {
    if pieces != [] {
      KeptMembers(pieces[1..]);
      TopicOfCons(pieces);
      assert Kept(pieces) == PieceTopic(pieces[0]) + Kept(pieces[1..]);
    }
  }

  /** The topics of a list of pieces are the first piece's and the rest's. */
  lemma {:induction false} TopicOfCons(pieces: seq<string>)
    requires pieces != []
    ensures forall t :: TopicOf(pieces, t) <==>
      (Strip(pieces[0]) != "" && t == Lower(Strip(pieces[0]))) || TopicOf(pieces[1..], t)
  {
    forall t ensures TopicOf(pieces, t) <==>
      (Strip(pieces[0]) != "" && t == Lower(Strip(pieces[0]))) || TopicOf(pieces[1..], t)
    {
      TopicOfRest(pieces, t);
      TopicOfFrom(pieces, t);
    }
  }

  lemma {:induction false} TopicOfRest(pieces: seq<string>, t: string)
    requires pieces != []
    ensures TopicOf(pieces[1..], t) ==> TopicOf(pieces, t)
  {
    if TopicOf(pieces[1..], t) {
      var j :| 0 <= j < |pieces[1..]| && Strip(pieces[1..][j]) != "" && t == Lower(Strip(pieces[1..][j]));
      assert pieces[1..][j] == pieces[j + 1];
      assert 0 <= j + 1 < |pieces| && Strip(pieces[j + 1]) != "" && t == Lower(Strip(pieces[j + 1]));
    }
  }

  lemma {:induction false} TopicOfFrom(pieces: seq<string>, t: string)
    requires pieces != []
    ensures TopicOf(pieces, t) ==> (Strip(pieces[0]) != "" && t == Lower(Strip(pieces[0]))) || TopicOf(pieces[1..], t)
  {
    if TopicOf(pieces, t) {
      var j :| 0 <= j < |pieces| && Strip(pieces[j]) != "" && t == Lower(Strip(pieces[j]));
      if j > 0 {
        assert pieces[1..][j - 1] == pieces[j];
        assert 0 <= j - 1 < |pieces[1..]| && Strip(pieces[1..][j - 1]) != "" && t == Lower(Strip(pieces[1..][j - 1]));
      }
    }
  }

  /** Lowering never turns a character into whitespace or back. */
  lemma {:induction false} LowerKeepsTrimmed(s: string)
    requires IsTrimmed(s, IsSpace)
    ensures IsTrimmed(Lower(s), IsSpace)
  {
  }

  /** Topics are read piece by piece, in order. */
  lemma {:induction false} PieceTopicsConcat(a: seq<string>, b: seq<string>)
    ensures PieceTopics(a + b) == PieceTopics(a) + PieceTopics(b)
  {
    KeptConcat(a, b);
  }

  lemma {:induction false} KeptConcat(a: seq<string>, b: seq<string>)
    ensures Kept(a + b) == Kept(a) + Kept(b)
  {
    FlatMapConcat(PieceTopic, a, b);
  }

  lemma {:induction false} FlatMapConcat(f: string -> seq<string>, a: seq<string>, b: seq<string>)
    ensures FlatMap(f, a + b) == FlatMap(f, a) + FlatMap(f, b)
  {
    if a != [] {
      assert (a + b)[0] == a[0] && (a + b)[1..] == a[1..] + b;
      FlatMapConcat(f, a[1..], b);
    } else {
      assert a + b == b;
    }
  }


  /** Nothing but whitespace. */
  predicate Blank(s: string) {
    forall k :: 0 <= k < |s| ==> IsSpace(s[k])
  }

  /** `s.strip()` is empty exactly when `s` is blank. */
  lemma {:induction false} StripEmptyIffBlank(s: string)
    ensures Strip(s) == "" <==> Blank(s)
  {
  }

  /** The pieces of a blank string are blank. */
  lemma {:induction false} SplitBlank(s: string, sep: char)
    requires Blank(s)
    ensures forall i :: 0 <= i < |Split(s, sep)| ==> Blank(Split(s, sep)[i])
  {
    if s != [] {
      SplitBlank(s[1..], sep);
      var rest, r := Split(s[1..], sep), Split(s, sep);
      if s[0] != sep {
        assert r[0] == [s[0]] + rest[0];
        forall i | 0 < i < |r| ensures Blank(r[i]) {
          assert r[i] == rest[i];
        }
      }
    }
  }

  lemma {:induction false} BlankPieces(pieces: seq<string>)
    requires forall i :: 0 <= i < |pieces| ==> Blank(pieces[i])
    ensures PieceTopics(pieces) == []
  {
    if pieces != [] {
      StripEmptyIffBlank(pieces[0]);
      BlankPieces(pieces[1..]);
    }
  }

  /** The topics of one cell: the stripped, lowered non-blank pieces
      between commas, at most one per piece, each non-empty and lowercase.  The `topics_str.strip()` guard in front of
      the comprehension changes nothing: a cell that strips to nothing
      yields no topics anyway. */
  function CellTopics(cell: string): (r: seq<string>)
    ensures |r| <= |Split(cell, ',')|
    ensures forall i :: 0 <= i < |r| ==> r[i] != [] && IsLower(r[i]) && IsTrimmed(r[i], IsSpace)
    ensures forall t :: t in r <==> TopicOf(Split(cell, ','), t)
    ensures Strip(cell) == "" ==> r == []
  {
    assert Strip(cell) == "" ==> PieceTopics(Split(cell, ',')) == [] by {
      if Strip(cell) == "" {
        StripEmptyIffBlank(cell);
        SplitBlank(cell, ',');
        BlankPieces(Split(cell, ','));
      }
    }
    PieceTopics(Split(cell, ','))
  }

  /** A topic as the starred sheets write them: non-empty, lowercase,
      without a comma and without surrounding whitespace. */
  predicate CleanTopic(t: string) {
    t != "" && ',' !in t && IsLower(t) && IsTrimmed(t, IsSpace)
  }

  /** Every element with one leading space, as the pieces after the first
      look once a ", "-joined cell is split on ','. */
  function Padded(ts: seq<string>): (r: seq<string>)
    ensures |r| == |ts|
    ensures forall i :: 0 <= i < |ts| ==> r[i] == " " + ts[i]
  {
    seq(|ts|, i requires 0 <= i < |ts| => " " + ts[i])
  }

  lemma {:induction false} JoinCommaSpace(x: string, rest: seq<string>)
    ensures Join([x] + rest, ", ") == Join([x] + Padded(rest), ",")
    decreases |rest|
  {
    if rest != [] {
      var p, tail := Padded(rest), Padded(rest[1..]);
      JoinCommaSpace(rest[0], rest[1..]);
      assert [rest[0]] + rest[1..] == rest;
      assert p == [" " + rest[0]] + tail;
      JoinCons(x, rest, ", ");
      JoinCons(x, p, ",");
      if tail == [] {
        assert Join(p, ",") == " " + rest[0];
        assert Join(rest, ", ") == rest[0];
      } else {
        JoinCons(rest[0], tail, ",");
        JoinCons(" " + rest[0], tail, ",");
        assert Join(p, ",") == " " + rest[0] + "," + Join(tail, ",");
        assert Join(rest, ", ") == rest[0] + "," + Join(tail, ",");
      }
    }
  }

  lemma {:induction false} PaddedTopics(ts: seq<string>)
    requires forall i :: 0 <= i < |ts| ==> CleanTopic(ts[i])
    ensures PieceTopics(Padded(ts)) == ts
  {
    if ts != [] {
      var p := Padded(ts);
      assert p[1..] == Padded(ts[1..]);
      PaddedTopics(ts[1..]);
      PaddedHead(ts[0]);
      KeptHead(p, ts[0]);
      assert [ts[0]] + ts[1..] == ts;
    }
  }

  /** A clean topic after one space strips back to itself. */
  lemma {:induction false} PaddedHead(t: string)
    requires CleanTopic(t)
    ensures Strip(" " + t) == t
  {
    StripPadded(" ", t, "", IsSpace);
    assert " " + t + "" == " " + t;
  }

  /** A first piece that strips to a lowercase topic is kept as it strips. */
  lemma {:induction false} KeptHead(pieces: seq<string>, t: string)
    requires pieces != [] && Strip(pieces[0]) == t && t != "" && IsLower(t)
    ensures PieceTopics(pieces) == [t] + PieceTopics(pieces[1..])
  {
    LowerOfLower(t);
  }

  /** Round trip: clean topics written as a ", "-joined cell read back as
      the same list, in the same order. */
  lemma {:induction false} TopicsRoundTrip(ts: seq<string>)
    requires forall i :: 0 <= i < |ts| ==> CleanTopic(ts[i])
    ensures CellTopics(Cell(ts)) == ts
  {
    if ts == [] {
      assert Split("", ',') == [""];
      assert Strip("") == "";
    } else {
      JoinCommaSpace(ts[0], ts[1..]);
      assert [ts[0]] + ts[1..] == ts;
      var pieces := [ts[0]] + Padded(ts[1..]);
      forall i | 0 <= i < |pieces| ensures ',' !in pieces[i] {
        if i > 0 {
          assert pieces[i] == " " + ts[1..][i - 1];
        }
      }
      SplitJoin(pieces, ',');
      StripTrimmed(ts[0], IsSpace);
      LowerOfLower(ts[0]);
      PaddedTopics(ts[1..]);
      assert pieces[1..] == Padded(ts[1..]);
      KeptHead(pieces, ts[0]);
    }
  }
}
