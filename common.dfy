/** The message the console program sends to the search worker, and the size of the
    answer it gets back (`common.h`). */
module Common {
  /** `Request`: two field-name/value pairs, `field_name2` empty when unused. Each
      member is the text its buffer holds before its NUL. */
  datatype Request = Request(fieldName1: string, value1: string, fieldName2: string, value2: string)

  /** `sizeof(Response.result)`: the answer, with its terminator, fits in this many bytes. */
  const ResultSize: nat := 2048

  /** The field names both programs spell out: "title" for the first criterion, and
      "update_date" (the worker also takes "updatedate" and "update-date") for the
      second. */
  const TitleName: string := "title"
  const UpdateDateName: string := "update_date"
  const UpdateDateNameJoined: string := "updatedate"
  const UpdateDateNameDashed: string := "update-date"
}
