/**
  The comments of the detail view: the `GROUP_CONCAT` aggregate the
  detail query builds (app/index.php 124) and the decoder that splits it
  back into `{id, name, body}` records (128-135).
 */
module Comments {
  import opened Wrappers
  import opened PhpStrings
  import opened Shops

  const FieldSep: string := ":::"
  const RecordSep: string := "|||"

  /** `compact('id', 'name', 'body')` after `list(...) = explode(...)`; a missing piece is `null`. */
  datatype CommentFields = CommentFields(id: Option<string>, name: Option<string>, body: Option<string>)

  /** One record of the aggregate: `c.id, ':::', c.name, ':::', c.body`. */
  function Record(c: Comment): string {
    Implode(FieldSep, [NatToString(c.id), c.name, c.body])
  }

  function Records(cs: seq<Comment>): (r: seq<string>)
    ensures |r| == |cs| && forall i :: 0 <= i < |cs| ==> r[i] == Record(cs[i])
  {
    seq(|cs|, i requires 0 <= i < |cs| => Record(cs[i]))
  }

  /**
    The `comments` column: the records joined by `|||`, or SQL `NULL`
    when the left join found no comment.
   */
  function Aggregate(cs: seq<Comment>): (r: Option<string>)
    ensures r.None? <==> |cs| == 0
  {
    if |cs| == 0 then None else Some(Implode(RecordSep, Records(cs)))
  }

  /** `list($id, $name, $body) = explode(':::', $record)`: extra pieces are dropped, missing ones are `null`. */
  function Fields(record: string): (r: CommentFields)
    ensures r.id.Some? && !Contains(r.id.value, FieldSep)
    ensures r.name.Some? ==> !Contains(r.name.value, FieldSep)
    ensures r.body.Some? ==> !Contains(r.body.value, FieldSep)
    ensures r.name.None? ==> r.body.None?
  {
    var p := Explode(FieldSep, record);
    assert forall i :: 0 <= i < |p| ==> !Contains(p[i], FieldSep) by {
      forall i | 0 <= i < |p| {
        ContainsIff(p[i], FieldSep);
      }
    }
    CommentFields(Some(p[0]), if |p| > 1 then Some(p[1]) else None, if |p| > 2 then Some(p[2]) else None)
  }

  /**
    Lines 128-135: a truthy aggregate is split into records, anything else
    gives no comments; every decoded comment has an id, and no field holds
    the field separator.
   */
  function Decode(agg: Option<string>): (r: seq<CommentFields>)
    ensures r == [] <==> agg.None? || Empty(agg.value)
    ensures forall i :: 0 <= i < |r| ==> r[i].id.Some? && !Contains(r[i].id.value, FieldSep)
  {
    if agg.None? || Empty(agg.value) then []
    else
      var records := Explode(RecordSep, agg.value);
      seq(|records|, i requires 0 <= i < |records| => Fields(records[i]))
  }

  /** What the view shows of a stored comment. */
  function Shown(c: Comment): CommentFields {
    CommentFields(Some(NatToString(c.id)), Some(c.name), Some(c.body))
  }

  /** A `NULL`, empty or `"0"` aggregate decodes to no comments. */
  lemma DecodeOfNothing(agg: Option<string>)
    requires agg.None? || agg.value == "" || agg.value == "0"
    ensures Decode(agg) == []
  {
  }

  /** Every shop that has comments gets a truthy aggregate, so its comments are decoded. */
  lemma AggregateIsTruthy(cs: seq<Comment>)
    requires |cs| > 0
    ensures !Empty(Aggregate(cs).value)
  {
    var rs := Records(cs);
    assert |Record(cs[0])| >= |FieldSep|;
    assert |Implode(RecordSep, rs)| >= |rs[0]|;
  }

  lemma ImplodeThree(d: string, a: string, b: string, c: string)
    ensures Implode(d, [a, b, c]) == a + d + b + d + c
  {
    assert [a, b, c][1..] == [b, c];
    assert [b, c][1..] == [c];
    assert Implode(d, [c]) == c;
    assert Implode(d, [b, c]) == b + d + c;
    assert Implode(d, [a, b, c]) == a + d + (b + d + c);
  }

  // ------------------------------------------------- delimiter runs of three

  function Triple(c: char): string {
    [c, c, c]
  }

  /** A piece without `ccc` that does not end in `c` meets `ccc` only at its joint. */
  lemma NoTripleMeansJoint(x: string, c: char)
    requires !Contains(x, Triple(c)) && (|x| == 0 || x[|x| - 1] != c)
    ensures FirstAtJoint(x, Triple(c))
  {
    var d := Triple(c);
    ContainsIff(x, d);
    forall k | 0 <= k < |x|
      ensures !OccursAt(x + d, d, k)
    {
      if k + 3 <= |x| {
        assert (x + d)[k..k + 3] == x[k..k + 3];
        assert !OccursAt(x, d, k);
      } else {
        assert (x + d)[k..k + 3][|x| - 1 - k] == (x + d)[|x| - 1] == x[|x| - 1];
      }
    }
  }

  /** Two pieces without `ccc`, joined by a separator free of `c`, still contain no `ccc`. */
  lemma NoTripleAcross(a: string, sep: string, b: string, c: char)
    requires !Contains(a, Triple(c)) && !Contains(b, Triple(c))
    requires |sep| > 0 && forall i :: 0 <= i < |sep| ==> sep[i] != c
    ensures !Contains(a + sep + b, Triple(c))
  {
    var d := Triple(c);
    var t := a + sep + b;
    ContainsIff(a, d);
    ContainsIff(b, d);
    ContainsIff(t, d);
    forall k | 0 <= k
      ensures !OccursAt(t, d, k)
    {
      if k + 3 <= |a| {
        assert t[k..k + 3] == a[k..k + 3];
        assert !OccursAt(a, d, k);
      } else if k >= |a| + |sep| {
        var m := k - |a| - |sep|;
        if k + 3 <= |t| {
          assert t[k..k + 3] == b[m..m + 3];
        }
        assert !OccursAt(b, d, m);
      } else if k + 3 <= |t| {
        var j := if k < |a| then |a| else k;
        assert t[k..k + 3][j - k] == t[j] == sep[j - |a|];
      }
    }
  }

  /** Digits contain no `:` and no `|`. */
  lemma DecimalHasNoTriple(s: string, c: char)
    requires AllDigits(s) && !IsDigit(c)
    ensures !Contains(s, Triple(c))
    ensures |s| == 0 || s[|s| - 1] != c
  {
    var d := Triple(c);
    ContainsIff(s, d);
    forall k | 0 <= k
      ensures !OccursAt(s, d, k)
    {
      if k + 3 <= |s| {
        assert s[k..k + 3][0] == s[k];
      }
    }
  }

  // ------------------------------------------------------------ round trip

  /**
    A comment survives the aggregate when neither field contains a
    delimiter, the name does not end in `:` and the body does not end in
    `|`. The last two conditions are needed: see `NameEndingInColonIsMisread`.
   */
  predicate CleanName(x: string) {
    !Contains(x, FieldSep) && !Contains(x, RecordSep) && (|x| == 0 || x[|x| - 1] != ':')
  }

  predicate CleanBody(x: string) {
    !Contains(x, FieldSep) && !Contains(x, RecordSep) && (|x| == 0 || x[|x| - 1] != '|')
  }

  predicate Clean(cs: seq<Comment>) {
    forall i :: 0 <= i < |cs| ==> CleanName(cs[i].name) && CleanBody(cs[i].body)
  }

  /** One clean record splits back into its three fields. */
  lemma FieldsOfRecord(c: Comment)
    requires CleanName(c.name) && CleanBody(c.body)
    ensures Fields(Record(c)) == Shown(c)
  {
    var id := NatToString(c.id);
    assert FieldSep == Triple(':');
    DecimalHasNoTriple(id, ':');
    NoTripleMeansJoint(id, ':');
    NoTripleMeansJoint(c.name, ':');
    var xs := [id, c.name, c.body];
    assert Separable(xs, FieldSep);
    ExplodeImplode(FieldSep, xs);
  }

  /** A clean record contains no `|||`, and ends in `|` only if its body does. */
  lemma RecordHasNoRecordSep(c: Comment)
    requires CleanName(c.name) && CleanBody(c.body)
    ensures !Contains(Record(c), RecordSep)
    ensures RecordSep == Triple('|') && Record(c)[|Record(c)| - 1] != '|'
  {
    var id := NatToString(c.id);
    assert RecordSep == Triple('|');
    DecimalHasNoTriple(id, '|');
    NoTripleAcross(id, FieldSep, c.name, '|');
    NoTripleAcross(id + FieldSep + c.name, FieldSep, c.body, '|');
    ImplodeThree(FieldSep, id, c.name, c.body);
  }

  /**
    Decoding the aggregate of clean comments gives back every comment's
    id, name and body, in order.
   */
  lemma RoundTrip(cs: seq<Comment>)
    requires Clean(cs)
    ensures Decode(Aggregate(cs)) == seq(|cs|, i requires 0 <= i < |cs| => Shown(cs[i]))
  {
    if |cs| > 0 {
      AggregateIsTruthy(cs);
      var rs := Records(cs);
      forall i | 0 <= i < |rs|
        ensures FirstAtJoint(rs[i], RecordSep) && !Contains(rs[i], RecordSep)
      {
        RecordHasNoRecordSep(cs[i]);
        NoTripleMeansJoint(rs[i], '|');
      }
      assert Separable(rs, RecordSep);
      ExplodeImplode(RecordSep, rs);
      forall i | 0 <= i < |cs|
        ensures Fields(rs[i]) == Shown(cs[i])
      {
        FieldsOfRecord(cs[i]);
      }
    }
  }

  /** With clean names and bodies, a comment appended last is decoded last. */
  lemma AppendedCommentDecodedLast(cs: seq<Comment>, c: Comment)
    requires Clean(cs) && CleanName(c.name) && CleanBody(c.body)
    ensures var shown := Decode(Aggregate(cs + [c]));
      |shown| > 0 && shown[|shown| - 1] == Shown(c)
  {
    var all := cs + [c];
    assert Clean(all);
    RoundTrip(all);
    assert all[|all| - 1] == c;
  }

  /**
    Keeping the delimiters out of the fields is not enough: a name ending
    in `:` runs into the following `:::`, so the name loses its colon and
    the body gains one.
   */
  lemma NameEndingInColonIsMisread(c: Comment)
    requires c.name == "a:" && c.body == "b"
    ensures !Contains(c.name, FieldSep) && !Contains(c.name, RecordSep)
    ensures Fields(Record(c)).name == Some("a")
    ensures Fields(Record(c)).name != Shown(c).name
  {
    var id := NatToString(c.id);
    var r := Record(c);
    ImplodeThree(FieldSep, id, c.name, c.body);
    assert c.name + FieldSep + c.body == "a:" + ":::" + "b" == "a::::b";
    var n := |id|;
    var rest := "a::::b";
    DecimalHasNoTriple(id, ':');
    NoTripleMeansJoint(id, ':');
    JointIsLeftmost(id, FieldSep, rest);
    assert r == id + FieldSep + rest;
    assert r[n + 3..] == rest;
    assert OccursAt(rest, FieldSep, 1);
    assert rest[0..3][0] == 'a';
    assert !OccursAt(rest, FieldSep, 0);
    assert IndexOf(rest, FieldSep) == Some(1);
    assert Explode(FieldSep, rest)[0] == "a";
    assert Explode(FieldSep, r)[1] == "a";
    ContainsIff(c.name, FieldSep);
    ContainsIff(c.name, RecordSep);
  }
}
