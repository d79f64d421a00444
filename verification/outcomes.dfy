/** The optional value used wherever the modelled .NET code either produces a
    value or signals a failure that its caller turns into "no value". */
module Outcomes {

  datatype Option<+T> = None | Some(value: T)

}
