/** The COCO conversion script as it runs: the five running tables are the
    fields of a `Converter`, one loop iteration (`ProcessLine`) updates them
    in place in the script's own order, and `Convert` drives the loop over
    the data lines. Both are proved to agree with the specification in
    module CocoConvert: after every successful line the tables are exactly
    `Replay` of the lines so far, and the run's outcome is `Assemble`. */
module CocoBuilder {
  import opened Wrappers
  import opened Text
  import opened CocoConvert

  class Converter {
    var imageSet: set<string>
    var imageIdMapping: map<string, int>
    var images: seq<ImageRecord>
    var annotations: seq<Annotation>
    var annotationId: int

    /** The tables as a value. */
    function Snapshot(): State
      reads this
    {
      State(imageSet, imageIdMapping, images, annotations, annotationId)
    }

    /** The empty tables the script starts from, with the counter at 1. */
    constructor()
      ensures Snapshot() == Initial
    {
      imageSet := {};
      imageIdMapping := map[];
      images := [];
      annotations := [];
      annotationId := 1;
    }

    /** The `if image_name not in image_set` branch. A name already in the
        set changes nothing. A new name gets the id `len(image_set) + 1` and
        enters the set and the map before its image is read; if the read
        fails the script dies with the name registered but no record for
        it. */
    method Register(name: string, env: Env) returns (err: Option<ConvertError>)
      requires Consistent(Snapshot())
      modifies this
      ensures var r := RegisterImage(old(Snapshot()), name, env);
              && (r.Success? <==> err.None?)
              && (r.Success? ==> Snapshot() == r.value)
              && (r.Failure? ==> err == Some(r.error))
      ensures err.Some? ==>
                Snapshot() == old(Snapshot()).(imageSet := old(imageSet) + {name},
                                               imageIdMapping := old(imageIdMapping)[name := |old(imageSet)| + 1])
    {
      if name !in imageSet {
        var imageId := |imageSet| + 1;
        imageSet := imageSet + {name};
        imageIdMapping := imageIdMapping[name := imageId];
        var size := env.imageSize(name);
        if size.None? {
          return Some(ImageUnreadable(name));
        }
        images := images + [ImageRecord(imageId, name, size.value.height, size.value.width)];
      }
      return None;
    }

    /** The loop body after the unpacking: register the image, process the
        mask, parse the category id, append the annotation and advance the
        counter. On success the tables are the result of `StepRow`. When
        the mask or the category id fails, the image stays registered and
        no annotation is added. */
    method ProcessRow(row: Row, env: Env) returns (err: Option<ConvertError>)
      requires Consistent(Snapshot())
      modifies this
      ensures var r := StepRow(old(Snapshot()), row, env);
              && (r.Success? <==> err.None?)
              && (r.Success? ==> Snapshot() == r.value)
              && (r.Failure? ==> err == Some(r.error))
      ensures err.Some? && err.value.ImageUnreadable? ==>
                Snapshot() == old(Snapshot()).(imageSet := old(imageSet) + {row.imageName},
                                               imageIdMapping := old(imageIdMapping)[row.imageName := |old(imageSet)| + 1])
      ensures err.Some? && !err.value.ImageUnreadable? ==>
                Snapshot() == RegisterImage(old(Snapshot()), row.imageName, env).value
    {
      err := Register(row.imageName, env);
      if err.Some? {
        return;
      }
      var mask := env.processMask(row.maskName);
      if mask.None? {
        return Some(MaskNotFound(row.maskName));
      }
      var category := ParseInt(row.categoryId);
      if category.None? {
        return Some(InvalidCategoryId(row.categoryId));
      }
      annotations := annotations + [Annotation(
        annotationId, imageIdMapping[row.imageName], category.value,
        mask.value.segmentation, mask.value.area, mask.value.bbox, 0)];
      annotationId := annotationId + 1;
    }

    /** One iteration of the loop: unpack `line.strip().split(",")` into
        four names, then process the row. On success the tables are the
        result of `Step`. On an exception they are left as the script leaves
        them when it dies: untouched for a line that does not unpack, with
        the name in the set and the map but no record when the image cannot
        be read, and with the image registered but no annotation when the
        mask or the category id fails. */
    method ProcessLine(line: string, env: Env) returns (err: Option<ConvertError>)
      requires Consistent(Snapshot())
      modifies this
      ensures var r := Step(old(Snapshot()), line, env);
              && (r.Success? <==> err.None?)
              && (r.Success? ==> Snapshot() == r.value)
              && (r.Failure? ==> err == Some(r.error))
      ensures ParseRow(line).Failure? ==> Snapshot() == old(Snapshot())
      ensures ParseRow(line).Success? && err.Some? && err.value.ImageUnreadable? ==>
                var name := ParseRow(line).value.imageName;
                Snapshot() == old(Snapshot()).(imageSet := old(imageSet) + {name},
                                               imageIdMapping := old(imageIdMapping)[name := |old(imageSet)| + 1])
      ensures ParseRow(line).Success? && err.Some? && !err.value.ImageUnreadable? ==>
                Snapshot() == RegisterImage(old(Snapshot()), ParseRow(line).value.imageName, env).value
    {
      var parsed := ParseRow(line);
      if parsed.Failure? {
        return Some(parsed.error);
      }
      err := ProcessRow(parsed.value, env);
    }
  }

  /** The whole script: skip the header, feed every data line to a fresh
      converter and stop at the first exception; otherwise put the tables
      and the categories into the document. */
  method Convert<C>(lines: seq<string>, categories: seq<C>, env: Env)
    returns (r: Result<Document<C>, ConvertError>)
    ensures r == Assemble(lines, categories, env)
  {
    var c := new Converter();
    var data := if lines == [] then [] else lines[1..];
    assert data == DataLines(lines);
    var i := 0;
    while i < |data|
      invariant 0 <= i <= |data|
      invariant Replay(data[..i], env) == Success(c.Snapshot())
    {
      ReplayNext(data, i, env);
      var err := c.ProcessLine(data[i], env);
      if err.Some? {
        ReplayFailurePersists(data, i + 1, env);
        return Failure(err.value);
      }
      i := i + 1;
    }
    assert data[..i] == data;
    return Success(Document(c.images, c.annotations, categories));
  }
}
