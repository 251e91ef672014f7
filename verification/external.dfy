/** The third-party and standard-library functions the extractor calls but
    whose code is not part of this model. They are carried as a record of total
    functions, so every property proved about the extractor holds for whatever
    these functions return. */
module External {
  import opened Wrappers

  datatype Libraries = Libraries(
    /** `strcase.ToLowerCamel` */
    toLowerCamel: string -> string,
    /** `snaker.ForceCamelIdentifier` */
    forceCamelIdentifier: string -> string,
    /** `inflection.Plural` */
    pluralize: string -> string,
    /** `inflection.Singular` */
    singularize: string -> string,
    /** `reflect.StructTag(tag).Get(key)` */
    tagGet: (string, string) -> string,
    /** `strconv.Unquote`; `None` stands for a returned error */
    unquote: string -> Option<string>,
    /** `strconv.Quote` */
    quote: string -> string
  )
}
