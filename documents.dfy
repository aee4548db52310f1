/** Identifiers and file descriptors shared by the Assignment and Submission records. */
module Documents {

  /** A document identifier (a MongoDB ObjectId); the store hands them out in increasing order. */
  type Id = nat

  /**
   * An identifier as it arrives in a route parameter or a body field: either text
   * that Mongoose can cast to an ObjectId, or text it cannot (a cast error).
   */
  datatype IdParam = ObjectId(id: Id) | Malformed

  /** The file object that the upload middleware attaches to a request (`req.file`). */
  datatype Upload = Upload(
    fieldname: string,
    originalname: string,
    encoding: string,
    mimetype: string,
    destination: string,
    filename: string,
    path: string,
    size: int)

  /** The stored file descriptor: the shape of both `questionFile` and `submissionFile`. */
  datatype FileInfo = FileInfo(
    filename: string,
    originalName: string,
    path: string,
    size: int,
    mimetype: string)

  /** The descriptor both controllers build from an upload: five of its fields, copied. */
  function Describe(u: Upload): FileInfo {
    FileInfo(u.filename, u.originalname, u.path, u.size, u.mimetype)
  }
}
