/** The two DOMException names that can reach a caller of the attachment cipher. */
module Dom {

  datatype DomException =
    | InvalidCharacterError  // thrown by btoa and atob on input outside their alphabet
    | OperationError         // thrown by an AES-GCM decrypt whose tag does not verify
}
