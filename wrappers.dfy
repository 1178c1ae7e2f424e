/** Option and Result values, and the ways the Ruby program fails at run time. */
module Wrappers {

  datatype Option<+T> = None | Some(value: T)

  /** The exceptions the Ruby code can raise on the paths that are modelled. */
  datatype Error =
    | MissingToken              // `@full[nil, 7]`: the name holds no S##E## token (TypeError)
    | NilFileName               // `nil.split` / `nil[...]`: the path has no segment (NoMethodError)
    | NoSuchDirectory(path: string)  // `Dir.foreach` on a directory that does not exist
    | UnknownConstant(name: string)  // `const_get` finds no such class (NameError)
    | UndefinedFiles            // the base `Catalog` has no `files` method (NoMethodError)
    | NoDisplays                // `Displays.all.first` is nil (NoMethodError)

  datatype Result<+T> = Ok(value: T) | Err(error: Error)

  datatype Outcome = Pass | Fail(error: Error)
}
