/** Shared-content records: a file entry and a directory of them. */
module Common {
  import opened Primitives

  /** A file entry: code, filename, size, extension and the number of attributes. */
  datatype File = File(code: int32, filename: seq<byte>, size: int64, extension: seq<byte>, attributeCount: int32)

  /** A directory: its name, the file count it declares and its file list. */
  datatype Directory = Directory(directoryname: seq<byte>, fileCount: int32, files: seq<File>)

  /**
   * The Directory constructor: a missing (null) file list becomes an empty one,
   * a given list is kept element for element. The declared count is stored as
   * given and need not match the list.
   */
  function NewDirectory(directoryname: seq<byte>, fileCount: int32, fileList: Option<seq<File>> := None): (d: Directory)
    ensures d.directoryname == directoryname && d.fileCount == fileCount
    ensures fileList.None? ==> d.files == []
    ensures fileList.Some? ==> |d.files| == |fileList.value| && forall i :: 0 <= i < |d.files| ==> d.files[i] == fileList.value[i]
  {
    Directory(directoryname, fileCount, if fileList.Some? then fileList.value else [])
  }

  /** Instantiates with the given data. */
  lemma InstantiatesWithGivenData(directoryname: seq<byte>, fileCount: int32)
    ensures NewDirectory(directoryname, fileCount).directoryname == directoryname
    ensures NewDirectory(directoryname, fileCount).fileCount == fileCount
  {
  }

  /** Instantiates with an empty file list given no list. */
  lemma InstantiatesWithEmptyFileListGivenNoList(directoryname: seq<byte>, fileCount: int32)
    ensures NewDirectory(directoryname, fileCount).files == []
  {
  }

  /**
   * Instantiates with the given file list: a single file (1, "a", 2, "b", 0),
   * whatever count is declared; 97 and 98 are the bytes of "a" and "b".
   */
  lemma InstantiatesWithGivenFileList(directoryname: seq<byte>, fileCount: int32)
    ensures var file := File(1, [97], 2, [98], 0);
            var d := NewDirectory(directoryname, fileCount, Some([file]));
            |d.files| == 1 && d.files[0] == file && d.fileCount == fileCount
  {
  }
}
