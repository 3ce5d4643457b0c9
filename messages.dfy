/** The messages the handlers report. */
module Messages {

  /** A business rejection: the email belongs to another user. */
  function AlreadyExists(email: string): (m: string)
    ensures |m| == |email| + 22
    ensures m[..6] == "Email " && m[|m| - 16..] == " already exists."
  {
    "Email " + email + " already exists."
  }

  const NotFound: string := "User not found."
  const NoChange: string := "Must update records."

  /** The exception thrown when a saved row comes back without a key. */
  const DatabaseError: string := "Database Error"
}
