# Caption index of the encoded MS-COCO training dataset

This project models the caption index of the image-captioning trainer's dataset class, `MSCOCOEncodedDataset` in `BART/training.py`. The dataset reads the COCO-style list of `{image_id, caption}` annotation records. It groups the records into a dictionary from image id to the list of that image's captions, and keeps the dictionary's keys as its sample order. A sample is one image id, one of its captions chosen at random, and the `.npy` file holding the image's precomputed encoding. That file is named after the id zero-padded to twelve characters.

The model has four modules:

- `PythonList` models Python list subscription. A negative index counts from the end, and an index out of range raises `IndexError`, modelled as a `Result` value.
- `CaptionIndex` gives reference definitions over the record sequence, with lemmas about them:
  - the set of ids that occur;
  - each id's captions in record order;
  - the grouped index;
  - the ids in order of first appearance.
- `EncodingFiles` models `f"{image_id:012d}.npy"`. This includes Python's sign-aware zero padding for negative ids. A parser is its proved inverse.
- `Training` holds the class `EncodedDataset`. Its constructor runs the grouping loop over the records, updating the dictionary field in place. The loop invariants tie the dictionary and its insertion order to the reference definitions. `Length` is `__len__`, and `GetItem` is the lookup part of `__getitem__`.

The random draw `np.random.randint(len(captions))` becomes an explicit argument `choice`. `GetItem` then indexes the caption list exactly as Python would for any integer passed. For every draw the random source can produce (`0 <= choice < len(captions)`), the lookup succeeds, and it returns a caption from that image's list.

The key list `list(self.image_id_to_captions.keys())` is the dictionary's insertion order, which is the order in which ids first appear in the records. The model keeps that order and proves properties about it.

`{:012d}` pads to at least twelve characters. Longer ids keep all their digits, and a negative id's minus sign counts towards the twelve.

## Model

| member | source | states |
|---|---|---|
| `Training.EncodedDataset.constructor` | BART/training.py:20-27 | after the loop, the dictionary equals `Index(annotations)` and the key list equals `FirstAppearance(annotations)`; every key is listed exactly once and has a non-empty caption list |
| `CaptionIndex.CaptionsNonEmpty` | BART/training.py:23-25 | an id's caption list is non-empty if and only if some record carries that id |
| `CaptionIndex.IndexListsNonEmpty` | BART/training.py:23-25 | no list in the grouped index is empty, because a key is created only just before a caption is appended |
| `CaptionIndex.IndexSnoc` | BART/training.py:21-25 | one more record appends its caption to its id's list, creating an empty list first if the id is new; no other entry changes |
| `CaptionIndex.CaptionsOfAppend` | BART/training.py:23-25 | the captions of records `a + b` are those of `a` followed by those of `b`, so each list keeps record order |
| `CaptionIndex.CaptionsOfSingle` | BART/training.py:25 | a single record contributes its caption to its own id and to no other |
| `CaptionIndex.CaptionMultiplicity` | BART/training.py:21-25 | a caption occurs in an id's list exactly as often as the record (id, caption) occurs, so duplicates are kept and nothing is invented |
| `CaptionIndex.CaptionMembership` | BART/training.py:21-25 | a caption is in an id's list if and only if a record pairs that caption with that id |
| `CaptionIndex.CaptionsAccountedFor` | BART/training.py:21-27 | the list lengths, summed over the key list, equal the number of records |
| `CaptionIndex.FirstAppearanceElements` | BART/training.py:27 | the key list contains exactly the ids that occur in the records (and so the dictionary's keys) |
| `CaptionIndex.FirstAppearanceDistinct` | BART/training.py:27 | the key list has no repeated entry |
| `CaptionIndex.FirstAppearanceOrdered` | BART/training.py:27 | an id listed before another first occurs in an earlier record |
| `CaptionIndex.FirstIndex` | BART/training.py:23 | for an id that occurs, the position of its first record: that record has the id and no earlier one does |
| `CaptionIndex.KeyListMatchesIndex` | BART/training.py:20-27 | the key list and the grouped index agree: every listed id is a key with a non-empty list, every key is listed, and no id is listed twice |
| `CaptionIndex.FirstAppearanceLength` | BART/training.py:27 | the key list is as long as the number of distinct ids |
| `Training.DatasetLength` | BART/training.py:29-30 | the length of a dataset whose dictionary is the grouped index of the records equals the number of distinct image ids, whatever the caption counts |
| `Training.EncodedDataset.Length` | BART/training.py:29-30 | `len(dataset)` equals the number of keys of the dictionary |
| `PythonList.Subscript` | BART/training.py:33-36 | `xs[i]` succeeds exactly for `-len(xs) <= i < len(xs)`, returns an element of `xs`, and counts a negative index from the end |
| `Training.EncodedDataset.GetItem` | BART/training.py:32-38 | a successful lookup returns a key of the dictionary, one of that key's captions, and that key's encoding file name; for any in-range index, negative ones counting from the end, it returns that position's id and fails only when the draw is out of range, and for `0 <= choice < len(captions)` it returns caption `choice` |
| `Training.SampleComesFromAnnotation` | BART/training.py:33-36 | for `0 <= idx < len` and every draw in `[0, len(captions))`, the lookup succeeds and some annotation record pairs the sample's image id with the chosen caption |
| `Training.ResamplingKeepsEncoding` | BART/training.py:33-39 | two lookups of the same index with different draws refer to the same image and the same encoding file |
| `EncodingFiles.Decimal` | BART/training.py:38 | the decimal form of a non-negative number is a non-empty digit string, with a leading '0' only for zero |
| `EncodingFiles.PaddedDecimal` | BART/training.py:38 | the `{:012d}` form of an id is at least twelve characters long |
| `EncodingFiles.EncodingFilename` | BART/training.py:38 | the file name is at least sixteen characters long and ends in `.npy` |
| `EncodingFiles.NonNegativeFilenameShape` | BART/training.py:38 | for a non-negative id the name is its digits left-padded with '0' to `max(12, digit count)` characters, followed by `.npy` |
| `EncodingFiles.NegativeFilenameShape` | BART/training.py:38 | for a negative id the name is '-' then zeros then the digits of its absolute value, padded to `max(12, digit count + 1)` characters, followed by `.npy` |
| `EncodingFiles.PositiveFilenameDigits` | BART/training.py:38 | for a positive id, removing `.npy` and the leading zeros gives back its decimal digits |
| `EncodingFiles.FilenameRoundTrip` | BART/training.py:38 | parsing the file name of any id gives back that id |
| `EncodingFiles.FilenameInjective` | BART/training.py:38-39 | two different image ids never share an encoding file name |

## Left out

- Reading the annotation file with `open` and `json.load` (lines 17-18) is I/O. The model takes the parsed `annotations` list as a sequence of records. The `KeyError` for a missing `annotations`, `image_id` or `caption` key is therefore not modelled.
- Captions are modelled as strings only. Python groups any JSON value as it is, and only the tokenizer at line 43, which is not modelled, would reject a non-string caption.
- Image ids are modelled as integers only. JSON could hold other values whose Python equality and hashing differ (for example `1` and `1.0` share a dictionary key).
- `os.path.join` of the encodings directory and the file name (line 39) is not modelled. Neither is loading the file with `np.load` and `torch.tensor` (line 41), nor the error raised when the file is missing. These are file I/O and foreign tensor libraries. A sample carries the file name only.
- Tokenizing the caption to `max_length` tokens (line 43) is not modelled. The tokenizer is an external library whose padding and truncation cannot be seen here. The model keeps `maxLength` as a field but does not use it, and it has no tokenizer field.
- `np.random.randint` (line 36) is replaced by the explicit `choice` argument. Uniformity of the draw is not modelled.
- Model construction, parameter freezing, device placement, the optimizer and the training loop (lines 48-87) are not modelled. They are foreign machine-learning library calls and floating-point arithmetic.
- `DataLoader` batching and shuffling (line 53) is library behaviour and is not modelled.
- Saving checkpoints and console output (lines 87-92) are I/O and are not modelled.
- The evaluation script `BART/evaluation metrics/rougel.py` is not part of this model. It repeats the same grouping loop for ground-truth captions. Its ROUGE-L scoring comes from an external library.
