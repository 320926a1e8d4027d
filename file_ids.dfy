/** Block references of the storage engine's file layer. */
module FileIds {

  /**
   * A reference to one fixed-size block of a file: the file's name and the
   * block's number within it. Equality is by value, so a `BlockId` can be used
   * as a map key exactly as the Java class is used as a `HashMap` key.
   */
  datatype BlockId = BlockId(fileName: string, number: nat)
}
