/** Error kinds raised by the modelled operations, and the Result type that
    carries them.  Each kind stands for one `std::runtime_error` (or one
    failure of the storage layer) of the nix / pandora library. */
module Errors {

  datatype Error =
    | AllocationTooLarge     // NDArray: "Cannot allocate storage (exceeds memory)"
    | IndexTooLarge          // NDArray: "index does not fit into memory"
    | RankMismatch           // NDSize::dot on sizes of different rank
    | LinkTargetMissing      // Section::link: "Linked section does not exist!"
    | LinkTypeDeviates       // Section::link: "... a section of deviating type!"
    | ParentNotFound         // Section::findParent
    | PropertyNotFound       // Section::getProperty / getPropertyByName
    | PropertyExists         // Section::addProperty
    | ObjectIndexOutOfRange  // storage layer: objectName(i) past the last object
    | GroupExists            // storage layer: createGroup on a name already taken

  datatype Result<T> = Ok(value: T) | Err(error: Error)
}
