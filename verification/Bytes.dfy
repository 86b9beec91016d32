/** The bytes of memory, of files and of disk sectors. */
module Bytes {
  type Byte = bv8
}
