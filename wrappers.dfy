// Results and the exceptions of the notebook-repository core and of its
// browser-side project pages.

module Wrappers {

  datatype Option<T> = None | Some(value: T)

  /** The exceptions the modelled code raises or catches. */
  datatype Error =
    | FileAlreadyExists     // java.nio.file.FileAlreadyExistsException
    | NoSuchFile            // java.nio.file.NoSuchFileException
    | NotDirectory          // a FileSystemException for a parent that is not a directory
    | AccessDenied          // java.nio.file.AccessDeniedException
    | FileSystem            // any other java.nio.file.FileSystemException
    | FileNotFound          // java.io.FileNotFoundException
    | Io                    // any other java.io.IOException
    | NotebookIo            // NotebookIoException (unchecked)
    | IllegalArgument       // IllegalArgumentException, also from Validate.isTrue
    | UnsupportedOperation  // UnsupportedOperationException
    | Runtime               // a plain RuntimeException
    | NullPointer           // NullPointerException
    | ProjectManager        // ProjectManagerException
    | Type                  // a JavaScript TypeError (a method called on null or undefined)

  /** The checked exceptions: what a `catch (IOException e)` catches. */
  predicate IsIOException(e: Error) {
    match e
    case FileAlreadyExists => true
    case NoSuchFile => true
    case NotDirectory => true
    case AccessDenied => true
    case FileSystem => true
    case FileNotFound => true
    case Io => true
    case _ => false
  }

  datatype Result<T> = Ok(value: T) | Err(error: Error)

  /** The outcome of a `void` Java method: it returns or it throws. */
  datatype Outcome = Done | Failed(error: Error)
}
