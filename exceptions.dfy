/** The Ruby exceptions the modelled code can raise. */
module Exceptions {

  datatype Exception =
    /** `ORA::DPS::DPSException` with its message. */
    | DpsException(message: string)
    /** `NoMethodError` / `NameError`: a method called on nil, or a name
        that is not defined. */
    | NoMethodError(name: string)
    /** `TypeError`, e.g. `File.join` given nil. */
    | TypeError(message: string)
    /** Any error the Fedora 6 client raises for a request. */
    | StoreError(message: string)
}
