/** What the scene benchmark compares: detected objects and simulator targets. */
module SceneObjects {
  import opened Options

  datatype Point = Point(x: real, y: real, z: real)

  /** Distances are inputs; only that they are never negative is used. */
  type Metric = (Point, Point) -> real

  /** `cls` is already stripped and lower-cased; `center` is None when it is missing or malformed;
      `volume` is None when the box is missing or not positive. */
  datatype Detection = Detection(missing: bool, cls: string, center: Option<Point>, volume: Option<real>)

  datatype Target = Target(identity: string, expectedLabel: string, center: Point, radius: real, volume: real)

  /** Only such objects take part in an association. */
  predicate Eligible(obj: Detection) {
    !obj.missing && obj.cls != "robot" && obj.center.Some?
  }

  /** The positions of the eligible objects, in order. */
  function EligibleIndexes(objects: seq<Detection>): seq<int> {
    if objects == [] then []
    else
      var k := |objects| - 1;
      EligibleIndexes(objects[..k]) + if Eligible(objects[k]) then [k] else []
  }

  lemma {:induction false} EligibleIndexesFacts(objects: seq<Detection>)
    ensures forall e :: 0 <= e < |EligibleIndexes(objects)| ==>
      0 <= EligibleIndexes(objects)[e] < |objects| && Eligible(objects[EligibleIndexes(objects)[e]])
    ensures forall a, b :: 0 <= a < b < |EligibleIndexes(objects)| ==> EligibleIndexes(objects)[a] < EligibleIndexes(objects)[b]
  {
    if objects != [] {
      EligibleIndexesFacts(objects[..|objects| - 1]);
    }
  }

  lemma {:induction false} EligibleIsIndexed(objects: seq<Detection>, k: int)
    requires 0 <= k < |objects| && Eligible(objects[k])
    ensures k in EligibleIndexes(objects)
  {
    var last := |objects| - 1;
    if k == last {
      assert EligibleIndexes(objects)[|EligibleIndexes(objects[..last])|] == k;
    } else {
      EligibleIsIndexed(objects[..last], k);
    }
  }

  /** Loaders refuse targets whose association radius is not positive. */
  ghost predicate ValidTargets(truths: seq<Target>) {
    forall t :: 0 <= t < |truths| ==> truths[t].radius > 0.0
  }
}
