/**
 * What the object detector hands the engines for one frame: a list of
 * labelled boxes, where person boxes may carry the tracker's identifier.
 * The detector itself is not part of this model.
 */
module Detections {
  import opened Wrappers
  import opened Geometry

  /** The detector's class names the engines act on; any other class is ignored. */
  datatype Kind = Hand | Scooper | Pizza | Person | OtherKind

  datatype Detection = Detection(kind: Kind, box: Box, track: Option<int>)

  /** A person box together with its (optional) raw tracker identifier. */
  datatype PersonBox = PersonBox(box: Box, track: Option<int>)

  /** The boxes of one kind, in detection order. */
  function BoxesOf(dets: seq<Detection>, k: Kind): (r: seq<Box>)
    ensures |r| <= |dets|
    ensures forall b :: b in r <==> exists d :: d in dets && d.kind == k && d.box == b
  {
    if dets == [] then []
    else
      var rest := BoxesOf(dets[1..], k);
      assert forall d :: d in dets <==> d == dets[0] || d in dets[1..];
      if dets[0].kind == k then [dets[0].box] + rest else rest
  }

  /** The person detections, in detection order, each keeping its tracker identifier. */
  function PersonsOf(dets: seq<Detection>): (r: seq<PersonBox>)
    ensures |r| <= |dets|
    ensures forall p :: p in r <==> exists d :: d in dets && d.kind == Person && PersonBox(d.box, d.track) == p
  {
    if dets == [] then []
    else
      var rest := PersonsOf(dets[1..]);
      assert forall d :: d in dets <==> d == dets[0] || d in dets[1..];
      if dets[0].kind == Person then [PersonBox(dets[0].box, dets[0].track)] + rest else rest
  }

  /** Filtering a concatenation filters each part and keeps them in order. */
  lemma {:induction false} BoxesOfConcat(a: seq<Detection>, b: seq<Detection>, k: Kind)
    ensures BoxesOf(a + b, k) == BoxesOf(a, k) + BoxesOf(b, k)
    decreases |a|
  {
    if a == [] {
      assert a + b == b;
    } else {
      assert (a + b)[0] == a[0];
      assert (a + b)[1..] == a[1..] + b;
      BoxesOfConcat(a[1..], b, k);
    }
  }

  /** A single detection contributes its box exactly when it carries the label. */
  lemma BoxesOfSingle(d: Detection, k: Kind)
    ensures BoxesOf([d], k) == if d.kind == k then [d.box] else []
  {
  }

  /** Filtering a concatenation filters each part and keeps them in order. */
  lemma {:induction false} PersonsOfConcat(a: seq<Detection>, b: seq<Detection>)
    ensures PersonsOf(a + b) == PersonsOf(a) + PersonsOf(b)
    decreases |a|
  {
    if a == [] {
      assert a + b == b;
    } else {
      assert (a + b)[0] == a[0];
      assert (a + b)[1..] == a[1..] + b;
      PersonsOfConcat(a[1..], b);
    }
  }

  /** A single detection contributes a person box exactly when it is a person. */
  lemma PersonsOfSingle(d: Detection)
    ensures PersonsOf([d]) == if d.kind == Person then [PersonBox(d.box, d.track)] else []
  {
  }
}
