/** The 256-entry byte tables of the ciphers, one row of sixteen entries per line. */
module ByteTables {
  /** The row that the high half of the index selects, bit by bit. */
  function Row(h: bv8, r0: bv128, r1: bv128, r2: bv128, r3: bv128, r4: bv128, r5: bv128, r6: bv128, r7: bv128,
               r8: bv128, r9: bv128, r10: bv128, r11: bv128, r12: bv128, r13: bv128, r14: bv128, r15: bv128): bv128
  {
    if h & 8 == 0 then
      if h & 4 == 0 then
        if h & 2 == 0 then if h & 1 == 0 then r0 else r1
        else if h & 1 == 0 then r2 else r3
      else
        if h & 2 == 0 then if h & 1 == 0 then r4 else r5
        else if h & 1 == 0 then r6 else r7
    else
      if h & 4 == 0 then
        if h & 2 == 0 then if h & 1 == 0 then r8 else r9
        else if h & 1 == 0 then r10 else r11
      else
        if h & 2 == 0 then if h & 1 == 0 then r12 else r13
        else if h & 1 == 0 then r14 else r15
  }

  /** The byte of a row that the low half of the index selects, first byte on top. */
  function Pick(l: bv8, row: bv128): bv8 {
    var half := if l & 8 == 0 then row >> 64 else row;
    var quarter := if l & 4 == 0 then half >> 32 else half;
    var pair := if l & 2 == 0 then quarter >> 16 else quarter;
    ((if l & 1 == 0 then pair >> 8 else pair) & 0xFF) as bv8
  }

  /** Entry x of a table whose rows are given as 128-bit words. */
  function Entry(x: bv8, r0: bv128, r1: bv128, r2: bv128, r3: bv128, r4: bv128, r5: bv128, r6: bv128, r7: bv128,
                 r8: bv128, r9: bv128, r10: bv128, r11: bv128, r12: bv128, r13: bv128, r14: bv128, r15: bv128): bv8
  {
    Pick(x & 15, Row(x >> 4, r0, r1, r2, r3, r4, r5, r6, r7, r8, r9, r10, r11, r12, r13, r14, r15))
  }

  /** The Rijndael S-box, which both cipher sources tabulate. */
  function SBox(x: bv8): bv8 {
    Entry(
      x,
      0x637C777BF26B6FC53001672BFED7AB76,
      0xCA82C97DFA5947F0ADD4A2AF9CA472C0,
      0xB7FD9326363FF7CC34A5E5F171D83115,
      0x04C723C31896059A071280E2EB27B275,
      0x09832C1A1B6E5AA0523BD6B329E32F84,
      0x53D100ED20FCB15B6ACBBE394A4C58CF,
      0xD0EFAAFB434D338545F9027F503C9FA8,
      0x51A3408F929D38F5BCB6DA2110FFF3D2,
      0xCD0C13EC5F974417C4A77E3D645D1973,
      0x60814FDC222A908846EEB814DE5E0BDB,
      0xE0323A0A4906245CC2D3AC629195E479,
      0xE7C8376D8DD54EA96C56F4EA657AAE08,
      0xBA78252E1CA6B4C6E8DD741F4BBD8B8A,
      0x703EB5664803F60E613557B986C11D9E,
      0xE1F8981169D98E949B1E87E9CE5528DF,
      0x8CA1890DBFE6426841992D0FB054BB16
    )
  }

  /** The second S-box of SNOW 3G. */
  function SQBox(x: bv8): bv8 {
    Entry(
      x,
      0x25247367D7AE5C30A4EE6ECB7DB582DB,
      0xE48E48494F5D6A787088E85F5E8465E2,
      0xD8E9CCED402F112857D2ACE34A151BB9,
      0xB28085A62E024729074B0EC151AA89D4,
      0xCA0146B3EFDD447BC27FBEC39F204C64,
      0x83A2684213B441CDBAC6BB6D4D7121F4,
      0x8DB0E593FE8FE6CF43453122373696FA,
      0xBC0F08521D551AC54E23697A92FF5B5A,
      0xEB9A1CA9D17E0DFC508AB662F50AF8DC,
      0x033C0C39F1B8F33DF2D597668132A000,
      0x06CEF6EAB717F78C79D6A7BF8B3F1F53,
      0x6375352C60FD27D394A57CA105582DBD,
      0xD9C7AF6B540BE03804C89DE714B1879C,
      0xDF6FF9DA2AC459167491AB266176342B,
      0xAD99FB72EC3312DE983BC09B3E18103A,
      0x56E177C91E9E95A39019A86C09D0F086
    )
  }

  /** The inverse of SBox. */
  function InvSBox(x: bv8): bv8 {
    Entry(
      x,
      0x52096AD53036A538BF40A39E81F3D7FB,
      0x7CE339829B2FFF87348E4344C4DEE9CB,
      0x547B9432A6C2233DEE4C950B42FAC34E,
      0x082EA16628D924B2765BA2496D8BD125,
      0x72F8F66486689816D4A45CCC5D65B692,
      0x6C704850FDEDB9DA5E154657A78D9D84,
      0x90D8AB008CBCD30AF7E45805B8B34506,
      0xD02C1E8FCA3F0F02C1AFBD0301138A6B,
      0x3A9111414F67DCEA97F2CFCEF0B4E673,
      0x96AC7422E7AD3585E2F937E81C75DF6E,
      0x47F11A711D29C5896FB7620EAA18BE1B,
      0xFC563E4BC6D279209ADBC0FE78CD5AF4,
      0x1FDDA8338807C731B11210592780EC5F,
      0x60517FA919B54A0D2DE57A9F93C99CEF,
      0xA0E03B4DAE2AF5B0C8EBBB3C83539961,
      0x172B047EBA77D626E169146355210C7D
    )
  }

  /** The inverse of SQBox. */
  function InvSQBox(x: bv8): bv8 {
    Entry(
      x,
      0x9F413590C8BCA03872FC8DC592863A71,
      0xEE26E654CC2DD7A5EDF9762E8274F4AE,
      0x4D5E6B790100DBB62737D4DFB3BE3425,
      0x076A9DE5DEB26D6CC793EFE99197ECAD,
      0x245653684669423612132C394E5C7814,
      0x883C73AFC475F028BDD67F7E06151C1B,
      0xB4DC8BB04F1E9B03527A16C3FB5B0AD1,
      0x185DE302D8B1DDF217A87B47BA0C8549,
      0x319C0E501D32FFCE193E89ACA7601165,
      0xF8D97C63B8F66E9AE8E181EBCFCAF54C,
      0x9EBB51F708B933AAFA833DDA2AE005C2,
      0x61CD3043550D8AA4952F585A70BF4AAB,
      0xEA3B484BD57759C1C9F3400B2257A167,
      0xFD8429B73F99A90420C0D30F8F45E7D0,
      0xC6F11F2B106266CB1A21A380E4230944,
      0xFE9498965F8CA2A68ED26FE287B5647D
    )
  }

  /** Multiplication by x in the Rijndael field, as tabulated. */
  function XTime(x: bv8): bv8 {
    Entry(
      x,
      0x00020406080A0C0E10121416181A1C1E,
      0x20222426282A2C2E30323436383A3C3E,
      0x40424446484A4C4E50525456585A5C5E,
      0x60626466686A6C6E70727476787A7C7E,
      0x80828486888A8C8E90929496989A9C9E,
      0xA0A2A4A6A8AAACAEB0B2B4B6B8BABCBE,
      0xC0C2C4C6C8CACCCED0D2D4D6D8DADCDE,
      0xE0E2E4E6E8EAECEEF0F2F4F6F8FAFCFE,
      0x1B191F1D131117150B090F0D03010705,
      0x3B393F3D333137352B292F2D23212725,
      0x5B595F5D535157554B494F4D43414745,
      0x7B797F7D737177756B696F6D63616765,
      0x9B999F9D939197958B898F8D83818785,
      0xBBB9BFBDB3B1B7B5ABA9AFADA3A1A7A5,
      0xDBD9DFDDD3D1D7D5CBC9CFCDC3C1C7C5,
      0xFBF9FFFDF3F1F7F5EBE9EFEDE3E1E7E5
    )
  }

  lemma SBoxInverts(x: bv8)
    ensures InvSBox(SBox(x)) == x
  {
  }

  lemma SQBoxInverts(x: bv8)
    ensures InvSQBox(SQBox(x)) == x
  {
  }

  /** The multiplication table agrees with shifting and reducing. */
  lemma XTimeShifts(x: bv8)
    ensures XTime(x) == if x & 0x80 != 0 then (x << 1) ^ 0x1b else x << 1
  {
  }
}
