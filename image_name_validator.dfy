/** The bean-validation check on uploaded images: present, non-empty, and within the size limit. */
module ImageNameValidator {
  import opened Results

  /** The size limit in bytes: ten mebibytes. */
  const MAX_FILE_SIZE: int := 1024 * 1024 * 10

  /** The custom violation message set for an oversized file. */
  const SIZE_MESSAGE: string := "File size should be less them 2MB"

  /** An uploaded file as far as the check sees it; it is empty when its size is zero. */
  datatype MultipartFile = MultipartFile(size: nat)

  /** The answer of isValid, with the custom message it sets on the context, if any. */
  datatype Verdict = Accepted | Rejected(message: Option<string>)

  /** isValid: a missing or empty file is rejected with the default message, an oversized one with the size message. */
  function IsValid(file: Option<MultipartFile>): (v: Verdict)
    ensures v == Accepted <==> file.Some? && 0 < file.value.size <= MAX_FILE_SIZE
    ensures v == Rejected(None) <==> file.None? || file.value.size == 0
    ensures v == Rejected(Some(SIZE_MESSAGE)) <==> file.Some? && file.value.size > MAX_FILE_SIZE
  {
    if file.None? || file.value.size == 0 then Rejected(None)
    else if file.value.size > MAX_FILE_SIZE then Rejected(Some(SIZE_MESSAGE))
    else Accepted
  }

  /** The limit itself is accepted, one byte more is not, and the limit is five times the two megabytes the message names. */
  lemma SizeLimitBoundary()
    ensures IsValid(Some(MultipartFile(MAX_FILE_SIZE))) == Accepted
    ensures IsValid(Some(MultipartFile(MAX_FILE_SIZE + 1))) == Rejected(Some(SIZE_MESSAGE))
    ensures MAX_FILE_SIZE == 5 * (2 * 1024 * 1024)
  {
  }
}
