/** The cryptographic collaborators the core calls but does not define: the mcl
    validity checks, the conversions between mcl values and the card's byte
    formats, the platform-independent point data fed to the hash, and SHA-1.
    Each is an uninterpreted function: the model fixes only its signature. */
module Primitives {
  import opened Bytes
  import opened Layout
  import opened Group

  datatype Crypto = Crypto(
    /** mclBnG1_isValid */
    isValidG1: Point -> bool,
    /** mclBnFr_isValid */
    isValidFr: Fr -> bool,
    /** mcl_G1_to_smartcard_G1 */
    g1ToCard: Point -> PointBytes,
    /** smartcard_G1_to_mcl_G1 */
    cardToG1: PointBytes -> Point,
    /** smartcard_Fr_to_mcl_Fr */
    cardFrToFr: FrBytes -> Fr,
    /** smartcard_Multiplier_to_mcl_Fr */
    cardMultiplierToFr: MultiplierBytes -> Fr,
    /** mcl_bytes_to_Fr, the verifier's conversion (not assumed to agree with cardFrToFr) */
    bytesToFr: FrBytes -> Fr,
    /** digest_get_platform_point_data: the bytes of a point that are hashed */
    pointData: Point -> seq<byte>,
    /** digest_get_platform_point_size: how many such bytes there are */
    pointDataSize: nat,
    /** SHA-1 (FIPS 180-4) over a byte string */
    sha1: seq<byte> -> DigestBytes
  )
  {
    /** The point data of every point has the one platform size. */
    ghost predicate FixedPointData()
    {
      forall p: Point :: |pointData(p)| == pointDataSize
    }
  }
}
