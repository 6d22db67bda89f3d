/** The replies the routes send: an HTTP status and a JSON body, with the source's exact messages. */
module Http {
  import opened Tables

  datatype Reply =
    | Error(status: nat, error: string)        // `res.status(status).json({ error })`
    | Issued(message: string, token: string)   // `{ message, token }`
    | Uploaded(message: string, fileId: nat)   // `{ message, file_id }`
    | Listing(rows: seq<Listed>)               // the rows of `/files`
    | SendFile(path: string)                   // `res.download(path)` or a static file
    | Done(message: string)                    // `{ message }`
    | NotFound                                 // the framework's own 404

  const UploadDir: string := "uploads/"

  const NoTokenReply: Reply := Error(403, "\U{274C} No token provided.")
  const UnauthorizedReply: Reply := Error(401, "\U{274C} Unauthorized access.")
  const FieldsRequiredReply: Reply := Error(400, "\U{274C} All fields are required.")
  const UsernameTakenReply: Reply := Error(400, "\U{274C} Username already exists.")
  const AccountNotFoundReply: Reply := Error(400, "\U{274C} Account not found. Please register first.")
  const IncorrectPasswordReply: Reply := Error(400, "\U{274C} Incorrect password.")
  const NoFileReply: Reply := Error(400, "\U{274C} No file uploaded.")
  const UploadFailedReply: Reply := Error(500, "\U{274C} Database error during upload.")
  const ForbiddenReply: Reply := Error(403, "\U{274C} Unauthorized or file not found.")
  const EmailNotFoundReply: Reply := Error(400, "\U{274C} Email not found.")

  const RegisteredMessage: string := "\U{2705} Registered and logged in!"
  const LoggedInMessage: string := "\U{2705} Login successful!"
  const UploadedMessage: string := "\U{2705} File uploaded!"
  const DeletedMessage: string := "\U{2705} File deleted successfully!"
  const ResetMessage: string := "\U{2705} Password reset successfully!"
}
