/** Which validators accept the empty string. */
module EmptyInput {
  import opened Validators
  import NetworkProps

  /** The base64 check accepts the empty string, and it is the only one
      of the validators that does. */
  lemma OnlyBase64AcceptsEmpty()
    ensures IsBase64("")
    ensures !IsEmail("") && !IsURL("") && !IsPhoneNumber("") && !IsDateString("")
    ensures !IsUUID("") && !IsCreditCard("") && !IsPostalCode("") && !IsHexColor("")
    ensures !IsIPv4("") && !IsIPv6("") && !IsCurrency("") && !IsSSN("")
    ensures !IsDateTime("") && !IsGender("") && !IsCountryCode("") && !IsUsername("")
    ensures !IsPassword("") && !IsMACAddress("") && !IsLatitude("") && !IsLongitude("")
    ensures !IsISBN("") && !IsHexadecimal("") && !IsTwitterHandle("") && !IsSlug("")
  {
    if IsIPv6("") {
      NetworkProps.IPv6Necessary("");
    }
  }
}
