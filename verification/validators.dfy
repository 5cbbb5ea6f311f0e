/** `validate_file_size` (posts/validators.py): an uploaded image is accepted
    up to 5 MiB inclusive and rejected above. */
module Validators {
  import opened Wrappers

  /** The largest accepted size in bytes: 5 * 1024 * 1024, the "5 Мбайт" of
      the message. */
  const MaxImageSize: nat := 5242880

  const SizeErrorMessage: string := "Максимальный размер изображения не должен превышать 5 Мбайт"

  /** An uploaded file; only its size is inspected. */
  datatype UploadedImage = UploadedImage(name: string, size: nat)

  /** `forms.ValidationError`. */
  datatype ValidationError = ValidationError(message: string)

  /** Returns the image itself when it is small enough, and raises a
      validation error with the size message otherwise. */
  function ValidateFileSize(image: UploadedImage): (r: Result<UploadedImage, ValidationError>)
    ensures r.Err? <==> image.size > MaxImageSize
    ensures r.Ok? ==> r.value == image
    ensures r.Err? ==> r.error == ValidationError(SizeErrorMessage)
  {
    if image.size > 5242880 then Err(ValidationError(SizeErrorMessage)) else Ok(image)
  }

  /** The boundary is inclusive: exactly 5 MiB passes, one byte more fails. */
  lemma BoundaryInclusive(name: string)
    ensures ValidateFileSize(UploadedImage(name, MaxImageSize)) == Ok(UploadedImage(name, MaxImageSize))
    ensures ValidateFileSize(UploadedImage(name, MaxImageSize + 1)).Err?
  {
  }

  /** Acceptance is monotone: a smaller file than an accepted one is accepted,
      and a larger file than a rejected one is rejected. */
  lemma AcceptanceMonotone(small: UploadedImage, large: UploadedImage)
    requires small.size <= large.size
    ensures ValidateFileSize(large).Ok? ==> ValidateFileSize(small).Ok?
    ensures ValidateFileSize(small).Err? ==> ValidateFileSize(large).Err?
  {
  }

  /** Only the size decides: the file name never matters. */
  lemma OnlySizeMatters(a: UploadedImage, b: UploadedImage)
    requires a.size == b.size
    ensures ValidateFileSize(a).Ok? <==> ValidateFileSize(b).Ok?
  {
  }
}
