/**
  The file-name conventions of the `known_faces` directory: captured
  images `<name>_<k>.jpg` and the averaged encoding `<name>_encoding.npy`.
 */
module Files {
  import opened Text

  const IMAGE_SUFFIX: string := ".jpg"
  const ENCODING_SUFFIX: string := "_encoding.npy"

  /** The file an encoding for `name` is saved as. */
  function EncodingFile(name: string): (f: string)
    ensures EndsWith(f, ENCODING_SUFFIX)
  {
    var f := name + ENCODING_SUFFIX;
    assert f[|f| - |ENCODING_SUFFIX|..] == ENCODING_SUFFIX;
    f
  }

  /** The name an encoding file is loaded under: the file name with every `_encoding.npy` removed. */
  function EncodingName(fileName: string): string {
    RemoveAll(fileName, ENCODING_SUFFIX)
  }

  /**
    An encoding saved for `name` is loaded back under `name`, as long as
    the name does not itself contain `_encoding.npy`.
   */
  lemma EncodingNameOfFile(name: string)
    requires !Contains(name, ENCODING_SUFFIX)
    ensures EncodingName(EncodingFile(name)) == name
  {
    RemoveAllSuffix(name, ENCODING_SUFFIX);
  }
}
