/** The "value or nothing" type used for the TypeScript `T | undefined` and
    `T | null` fields of the app. */
module Optional {

  datatype Option<+T> = None | Some(value: T)

}
