/** Strings as the byte sequences that indexing and len see. */
module Texts {
  type Byte = n: int | 0 <= n < 256
  type Text = seq<Byte>
}
