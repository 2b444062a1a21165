/**
 * The file-node metadata the close path works on, and the file coordinator
 * that owns it. The coordinator's own store is not part of this model: it is
 * reduced to the set of file nodes it still records and a delete that either
 * takes effect or raises a fault.
 */
module Coordinator {

  /** One physical replica slot of a logical file: a disk-node service id and its service group. */
  datatype DuplicateNode = DuplicateNode(id: string, group: string)

  /** A logical file as the coordinator records it. */
  datatype FileNode = FileNode(
    name: string,
    storageId: int,
    storageName: string,
    createTime: int,
    duplicateNodes: seq<DuplicateNode>)

  /** The coordinator's store of file nodes that still exist. */
  class FileCoordinator {
    var files: set<FileNode>

    constructor (files: set<FileNode>)
      ensures this.files == files
    {
      this.files := files;
    }

    /**
     * Removes `file` from the store. Deleting a file node the store no longer
     * holds is not an error. `fault` says whether the store raises an
     * exception on this call; a faulting delete leaves the store as it was.
     */
    method Delete(file: FileNode, fault: bool) returns (threw: bool)
      modifies this
      ensures threw == fault
      ensures files == if fault then old(files) else old(files) - {file}
    {
      threw := fault;
      if !fault {
        files := files - {file};
      }
    }
  }
}
