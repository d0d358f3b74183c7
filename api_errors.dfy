/** The two error kinds a notes handler can answer with, and the messages
    each failing step of `src/endpoints/notes.rs` attaches to them. */
module ApiErrors {

  /** `ApiErrors`: only the two variants the notes handlers use. */
  datatype ApiError = NotFound(message: string) | InternalError(message: string)

  /** `ApiResult<T>`: a handler either succeeds with a value or fails with an `ApiError`. */
  datatype ApiResult<+T> = Ok(value: T) | Err(error: ApiError)

  // fetch_protocols
  const ProtocolsQueryFailed: string := "Failed to fetch protocols"
  const NoProtocols: string := "No protocols were found"
  // fetch_notes and add_note
  const AccountNotFound: string := "User account not found"
  const NotesQueryFailed: string := "No notes where found"
  // add_note
  const NoStaticDirectory: string := "Unable to find static file directory"
  const SaveFileFailed: string := "Unable to save file"
  const InsertFailed: string := "Unable to save file in database"
  // update_note_content, update_note_title and remove_note
  const NoteNotFound: string := "Note not found"
  const UpdateFileFailed: string := "Unable to update static file"
  const UpdateTitleFailed: string := "Failed to update the notes title"
  const DeleteFileFailed: string := "Unable to delete static file"
  const DeleteRowFailed: string := "Unable to remove file from database"
}
