/**
 The image catalog: the record type the resolvers return and the zero-valued
 record they fall back to. The catalog itself is an ordered `seq<Image>`,
 loaded once before any query and never written afterwards.
 */
module Catalog {

  datatype Option<T> = None | Some(value: T)

  /** One image metadata record, with the fields the GraphQL `Image` type exposes. */
  datatype Image = Image(
    id: string,
    caption: string,
    title: string,
    description: string,
    copyright: string,
    createdDate: string,
    keywords: seq<string>,
    directory: string,
    filename: string,
    imageHeight: int,
    imageWidth: int,
    lens: string,
    focalLength: string,
    fNum: string,
    shutterSpeed: string,
    iso: int)

  /** The zero value of a record: empty strings, zero integers, no keywords. */
  function ZeroImage(): Image
  {
    Image("", "", "", "", "", "", [], "", "", 0, 0, "", "", "", "", 0)
  }
}
