/**
 The training dataset over precomputed image encodings. Building it groups
 the annotation records by image id; each sample is one image id, one of
 its captions and the name of the file holding its encoding.

 The random caption choice is an explicit argument here: the caller passes
 the index that the random draw would have produced.
 */
module Training {

  import opened PythonList
  import opened CaptionIndex
  import opened EncodingFiles

  /** The part of a sample that the dataset itself decides. */
  datatype Sample = Sample(imageId: int, caption: string, encodingFile: string)

  class EncodedDataset {
    const encodingsDir: string
    const maxLength: nat

    /** The image id to captions dictionary. */
    var imageIdToCaptions: map<int, seq<string>>
    /** The dictionary's keys, in the dictionary's own (insertion) order. */
    var imageIds: seq<int>

    /**
     The index is consistent: every key is listed once, nothing else is
     listed, and every key has at least one caption.
     */
    ghost predicate Valid()
      reads this
    {
      && (forall i :: 0 <= i < |imageIds| ==> imageIds[i] in imageIdToCaptions)
      && (forall id :: id in imageIdToCaptions ==> id in imageIds)
      && Distinct(imageIds)
      && (forall id :: id in imageIdToCaptions ==> imageIdToCaptions[id] != [])
    }

    /**
     Groups `annotations` by image id. Python dictionaries remember the order
     in which keys were inserted; `insertionOrder` is that order.
     */
    constructor (encodingsDir: string, annotations: seq<Annotation>, maxLength: nat := 32)
      ensures this.encodingsDir == encodingsDir && this.maxLength == maxLength
      ensures imageIdToCaptions == Index(annotations)
      ensures imageIds == FirstAppearance(annotations)
      ensures Valid()
    {
      this.encodingsDir := encodingsDir;
      this.maxLength := maxLength;
      new;
      imageIdToCaptions := map[];
      var insertionOrder: seq<int> := [];
      for i := 0 to |annotations|
        invariant imageIdToCaptions == Index(annotations[..i])
        invariant insertionOrder == FirstAppearance(annotations[..i])
      {
        var ann := annotations[i];
        assert annotations[..i + 1] == annotations[..i] + [ann];
        assert annotations[..i + 1][..i] == annotations[..i];
        FirstAppearanceElements(annotations[..i]);
        IndexSnoc(annotations[..i], ann);
        if ann.imageId !in imageIdToCaptions {
          imageIdToCaptions := imageIdToCaptions[ann.imageId := []];
          insertionOrder := insertionOrder + [ann.imageId];
        }
        imageIdToCaptions := imageIdToCaptions[ann.imageId := imageIdToCaptions[ann.imageId] + [ann.caption]];
      }
      assert annotations[..|annotations|] == annotations;
      imageIds := insertionOrder;
      KeyListMatchesIndex(annotations);
    }

    /** `len(dataset)`: the number of distinct image ids. */
    function Length(): (n: nat)
      reads this
      requires Valid()
      ensures n == |imageIdToCaptions.Keys|
    {
      DistinctCardinality(imageIds);
      var listed := set x | x in imageIds;
      assert forall x :: x in imageIds ==> x in imageIdToCaptions;
      assert forall x :: x in imageIdToCaptions.Keys ==> x in listed;
      assert listed == imageIdToCaptions.Keys;
      |imageIds|
    }

    /**
     `dataset[idx]` with the caption draw `choice`: the image id at position
     `idx`, that image's caption at position `choice`, and its encoding file
     name. Both subscriptions follow Python's list indexing.
     */
    function GetItem(idx: int, choice: int): (r: Result<Sample>)
      reads this
      requires Valid()
      ensures r.Ok? ==> r.value.imageId in imageIdToCaptions
      ensures r.Ok? ==> r.value.caption in imageIdToCaptions[r.value.imageId]
      ensures r.Ok? ==> r.value.encodingFile == EncodingFilename(r.value.imageId)
      ensures r.Ok? ==> InBounds(imageIds, idx)
      ensures InBounds(imageIds, idx) ==>
        var id := if idx < 0 then imageIds[|imageIds| + idx] else imageIds[idx];
        var captions := imageIdToCaptions[id];
        (r.Ok? <==> InBounds(captions, choice)) &&
        (r.Ok? ==> r.value.imageId == id) &&
        (0 <= choice < |captions| ==> r == Ok(Sample(id, captions[choice], EncodingFilename(id))))
    {
      match Subscript(imageIds, idx)
      case IndexError => IndexError
      case Ok(imageId) =>
        var captions := imageIdToCaptions[imageId];
        match Subscript(captions, choice)
        case IndexError => IndexError
        case Ok(caption) => Ok(Sample(imageId, caption, EncodingFilename(imageId)))
    }
  }

  /**
   A dataset built from `annotations` has one sample per distinct image id,
   however many captions each image has.
   */
  lemma DatasetLength(d: EncodedDataset, annotations: seq<Annotation>)
    requires d.Valid() && d.imageIdToCaptions == Index(annotations)
    ensures d.Length() == |ImageIds(annotations)|
  {
  }

  /**
   Every in-range index with every draw the random source can produce
   (`0 <= choice < len(captions)`) yields a sample whose caption was paired
   with that image id by some annotation record.
   */
  lemma SampleComesFromAnnotation(d: EncodedDataset, annotations: seq<Annotation>, idx: int, choice: int)
    requires d.Valid()
    requires d.imageIdToCaptions == Index(annotations)
    requires 0 <= idx < |d.imageIds| && 0 <= choice < |d.imageIdToCaptions[d.imageIds[idx]]|
    ensures d.GetItem(idx, choice).Ok?
    ensures Annotation(d.GetItem(idx, choice).value.imageId, d.GetItem(idx, choice).value.caption) in annotations
  {
    var s := d.GetItem(idx, choice).value;
    CaptionMembership(annotations, s.imageId, s.caption);
  }

  /**
   Drawing a different caption for the same index never changes which image
   or which encoding file the sample refers to.
   */
  lemma ResamplingKeepsEncoding(d: EncodedDataset, idx: int, c1: int, c2: int)
    requires d.Valid()
    requires d.GetItem(idx, c1).Ok? && d.GetItem(idx, c2).Ok?
    ensures d.GetItem(idx, c1).value.imageId == d.GetItem(idx, c2).value.imageId
    ensures d.GetItem(idx, c1).value.encodingFile == d.GetItem(idx, c2).value.encodingFile
  {
  }
}
