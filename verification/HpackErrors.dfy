/** Why a header block is rejected. */
module HpackErrors {
  datatype HpackError = Truncated | BadInteger | BadHuffman | BadIndex(index: nat)
}
